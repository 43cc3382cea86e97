/** The sizes of the machine's unsigned integers. */
module Words {
  const HALF: nat := 0x1_0000
  const WORD: nat := 0x1_0000_0000
  const LONG: nat := 0x1_0000_0000_0000_0000
}
