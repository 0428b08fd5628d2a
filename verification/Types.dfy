/** Machine types shared by every layer. */
module Types {

  type byte = x: int | 0 <= x < 256

  /** The unit of transfer: 512 bytes. */
  type Sector = s: seq<byte> | |s| == 512 witness seq(512, _ => 0)

  const TWO_TO_THE_32 := 0x1_0000_0000

  /** Unsigned 32-bit arithmetic, with wrap-around. */
  function Add32(x: nat, y: nat): nat { (x + y) % TWO_TO_THE_32 }

  function Sub32(x: nat, y: nat): nat { (x - y) % TWO_TO_THE_32 }

  function Mul32(x: nat, y: nat): nat { (x * y) % TWO_TO_THE_32 }

  /** Narrowing of an unsigned value to a signed 16-bit return code. */
  function ToInt16(x: nat): (r: int)
    ensures -0x8000 <= r < 0x8000 && (x - r) % 0x1_0000 == 0
  {
    (x + 0x8000) % 0x1_0000 - 0x8000
  }

  function Min(x: nat, y: nat): nat { if x <= y then x else y }

  function Max(x: int, y: int): int { if x <= y then y else x }
}
