/** Machine words and the result types shared by the modules. */
module Words {
  const U32_SPAN: int := 0x1_0000_0000
  const U64_SPAN: int := 0x1_0000_0000_0000_0000

  type U32 = x: int | 0 <= x < 0x1_0000_0000
  type U64 = x: int | 0 <= x < 0x1_0000_0000_0000_0000
  type I64 = x: int | -0x8000_0000_0000_0000 <= x < 0x8000_0000_0000_0000

  /** What unsigned 32-bit arithmetic keeps of a mathematical integer. */
  function Wrap32(x: int): U32 {
    x % 0x1_0000_0000
  }

  function Max(a: int, b: int): int {
    if a < b then b else a
  }

  function Sign(x: int): int {
    if x < 0 then -1 else if x == 0 then 0 else 1
  }

  datatype Option<+T> = None | Some(value: T)
}
