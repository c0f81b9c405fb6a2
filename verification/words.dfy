/** Register numbers and the ranges of machine integers. */
module Words {

  type Byte = b: nat | b < 256
  type Reg = r: nat | r < 16

  /** The register the assembler and the resolver use as scratch. */
  const TMP: Reg := 11

  predicate Is8(imm: int) {
    -0x80 <= imm < 0x80
  }

  predicate Is32(imm: int) {
    -0x8000_0000 <= imm < 0x8000_0000
  }

  predicate Is64(imm: int) {
    -0x8000_0000_0000_0000 <= imm < 0x8000_0000_0000_0000
  }

  type Imm32 = v: int | Is32(v)
  type Imm64 = v: int | Is64(v)
}
