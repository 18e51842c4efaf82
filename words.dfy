/** Machine words shared by the hash and the generator.
    JavaScript's bitwise operators work on 32-bit two's-complement values
    (ToInt32 / ToUint32) and `Math.imul` keeps the low 32 bits of a product.
    So `Math.imul`, and a `+` whose sum feeds a bitwise operator, wrap
    modulo 2^32 exactly as `bv32` arithmetic does. The generator's state
    `a += 0x6D2B79F5` does not wrap in JavaScript; it is kept modulo 2^32
    here because every later use of it reduces it modulo 2^32. */
module Words {
  /** An unsigned 32-bit word (`x >>> 0` in JavaScript). */
  type Word = bv32

  /** A UTF-16 code unit, what `String.prototype.charCodeAt` returns. */
  type CodeUnit = bv16

  /** 2^32, the divisor that turns a word into a fraction of [0, 1). */
  const TwoTo32: int := 0x1_0000_0000

  /** 2^31: a word `u` stands for the fraction u / 2^32, so u > 2^31 means above 0.5. */
  const Half: Word := 0x8000_0000
}
