/** Machine integers, byte strings and the option type shared by every other module.

    Go's fixed-width integers are modelled as bounded mathematical integers; each
    place where the source wraps, truncates or saturates says so with one of the
    functions below. */
module Primitives {

  datatype Option<+T> = None | Some(value: T)
  {
    function GetOr(default: T): T {
      if Some? then value else default
    }
  }

  type byte = x: int | 0 <= x < 0x100
  type bytes = seq<byte>
  type u32 = x: int | 0 <= x < 0x1_0000_0000
  type u64 = x: int | 0 <= x < 0x1_0000_0000_0000_0000

  const MAX_U32: u32 := 0xFFFF_FFFF
  const MAX_I64 := 0x7FFF_FFFF_FFFF_FFFF
  const MIN_I64 := -0x8000_0000_0000_0000

  /** Go's conversion of an integer to uint32 keeps the low 32 bits. */
  function ToU32(x: int): u32 {
    x % 0x1_0000_0000
  }

  function ToByte(x: int): byte {
    x % 0x100
  }

  /** Go's integer division truncates toward zero. */
  function TruncDiv(a: int, b: int): int
    requires b > 0
  {
    if a >= 0 then a / b else -((-a) / b)
  }

  /** The `width` low-order bytes of n, most significant first. */
  function BigEndian(n: nat, width: nat): (b: bytes)
    ensures |b| == width
  {
    if width == 0 then [] else BigEndian(n / 0x100, width - 1) + [n % 0x100]
  }

  function FromBigEndian(b: bytes): nat {
    if b == [] then 0 else FromBigEndian(b[..|b| - 1]) * 0x100 + b[|b| - 1]
  }

  function Pow256(width: nat): nat {
    if width == 0 then 1 else 0x100 * Pow256(width - 1)
  }

  lemma {:induction false} BigEndianRoundTrip(n: nat, width: nat)
    requires n < Pow256(width)
    ensures FromBigEndian(BigEndian(n, width)) == n
  {
    if width > 0 {
      BigEndianRoundTrip(n / 0x100, width - 1);
      assert BigEndian(n, width)[..width - 1] == BigEndian(n / 0x100, width - 1);
    }
  }

  lemma BigEndianInjective(m: nat, n: nat, width: nat)
    requires m < Pow256(width) && n < Pow256(width)
    requires BigEndian(m, width) == BigEndian(n, width)
    ensures m == n
  {
    BigEndianRoundTrip(m, width);
    BigEndianRoundTrip(n, width);
  }

  /** The most significant byte comes first. */
  lemma BigEndianOrder(x: u32)
    ensures BigEndian(x, 4) == [x / 0x100_0000, x / 0x1_0000 % 0x100, x / 0x100 % 0x100, x % 0x100]
  {
    assert BigEndian(x, 4) == BigEndian(x / 0x100, 3) + [x % 0x100];
    assert BigEndian(x / 0x100, 3) == BigEndian(x / 0x100 / 0x100, 2) + [x / 0x100 % 0x100];
    assert BigEndian(x / 0x1_0000, 2) == BigEndian(x / 0x1_0000 / 0x100, 1) + [x / 0x1_0000 % 0x100];
    assert BigEndian(x / 0x100_0000, 1) == BigEndian(x / 0x100_0000 / 0x100, 0) + [x / 0x100_0000 % 0x100];
  }
}
