/** Machine words and the page size, shared by every component: fixed-width unsigned and signed
    integers, written as bounded mathematical integers with explicit wrap-around. */
module Words {

  const PAGE_SIZE := 4096
  const TWO_8 := 0x100
  const TWO_16 := 0x1_0000
  const TWO_31 := 0x8000_0000
  const TWO_32 := 0x1_0000_0000
  const TWO_62 := 0x4000_0000_0000_0000
  const TWO_63 := 0x8000_0000_0000_0000
  const TWO_64 := 0x1_0000_0000_0000_0000

  type byte = x: int | 0 <= x < TWO_8
  type u16 = x: int | 0 <= x < TWO_16
  type u32 = x: int | 0 <= x < TWO_32
  type u64 = x: int | 0 <= x < TWO_64
  type i32 = x: int | -TWO_31 <= x < TWO_31
  type i64 = x: int | -TWO_63 <= x < TWO_63

  datatype Option<+T> = None | Some(value: T)

  datatype Result<+T, +E> = Ok(value: T) | Err(error: E)

  function Wrap32(x: int): u32 { x % TWO_32 }

  function Wrap64(x: int): u64 { x % TWO_64 }

  /** Two's complement reading of the low 32 bits. */
  function Signed32(x: int): i32 {
    var r := x % TWO_32;
    if r < TWO_31 then r else r - TWO_32
  }

  /** Two's complement reading of the low 64 bits. */
  function Signed64(x: int): i64 {
    var r := x % TWO_64;
    if r < TWO_63 then r else r - TWO_64
  }

  /** Division rounding toward zero, as C and C# divide. */
  function TruncDiv(a: int, b: int): int
    requires b > 0
  {
    if a >= 0 then a / b else -((-a) / b)
  }

  /** Remainder with the sign of the dividend, as C and C# take it. */
  function TruncMod(a: int, b: int): int
    requires b > 0
  {
    a - b * TruncDiv(a, b)
  }

  function Min(a: int, b: int): int { if a <= b then a else b }

  function Max(a: int, b: int): int { if a <= b then b else a }
}
