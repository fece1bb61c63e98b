/** Word sizes and the null pointer of the machine. */
module Machine {
  const U16: int := 0x1_0000
  const U32: int := 0x1_0000_0000
  const U64: int := 0x1_0000_0000_0000_0000
  const NULL: int := 0
}
