/** The scalar floating-point layer of the kernel. Its numerics (IEEE 754
    binary32 under roundTiesToEven) are not modelled: a `Backend` is any
    triple of total functions, so every property proved about the kernel
    holds for the RISC-V realization and the soft-float realization alike. */
module Float32 {
  import opened MachineInts

  /** The bit pattern of a binary32 value (`float32_t` is `uint32_t` on the
      host and `float` on the guest; both hold these 32 bits). */
  type F32 = bv32

  /** `float32_t sum = 0`: the bits of +0.0 on both realizations. */
  const Zero: F32 := 0

  /** The three primitives `f32_mul`, `f32_fma` and `i32_to_f32`, chosen at
      build time: `fma(a, b, c)` is `a * b + c` with one rounding, `cvt`
      converts an `int32_t`. */
  datatype Backend = Backend(
    mul: (F32, F32) -> F32,
    fma: (F32, F32, F32) -> F32,
    cvt: Int32 -> F32)
}
