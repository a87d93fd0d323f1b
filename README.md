# Grouped quantized matrix–vector kernel

This project models `kernel_entry` in `matmul_kernel.cpp`. It is the
grouped, quantized matrix–vector product that a Cartesi Machine guest runs and
that the host recomputes with soft-float. For each output row `i < d`, the
kernel does the following:

- It walks the row's `n` inputs in groups of `gs`.
- For each group it sums `xq[k] * wq[i*n + k]` exactly in an `int32_t`
  accumulator `ival`.
- It folds each group into `sum` as
  `fma(cvt(ival), mul(xs[j/gs], ws[(i*n + j)/gs]), sum)`, starting from `0`.
- It stores `sum` into `xout[i]`.

After all rows it calls `halt()` once.

The project has four modules:

- `MachineInts` (`machine_ints.dfy`) holds the fixed-width integers of the
  signature:
  - `Int8` and `Int32`.
  - `U64`, whose `+` and `*` are checked never to wrap.
  - `SubU64`, the wrapping `uint64_t` subtraction of the loop guard.
  - The multiplication and division facts the index arithmetic needs.
- `Float32` (`float32.dfy`) holds `F32` (the 32 bits of a `float32_t`),
  `Zero` (the bits of +0.0) and `Backend`. A `Backend` is a record of three
  total functions standing for `f32_mul`, `f32_fma` and `i32_to_f32`. These
  functions are left uninterpreted, so every result holds for the RISC-V
  realization and the soft-float realization alike.
- `GroupedDot` (`grouped_dot.dfy`) is the specification:
  - `Problem.Valid`: what a call needs.
  - `GroupDot`: the exact integer sum of one group.
  - `RowAcc` / `RowSum`: the left fold over groups.
  - `GroupOffsets`: the offsets `j` that the guard `j <= n - gs` admits.
  - Lemmas about bounds, overflow, the offsets visited and the scale index.
- `Kernel` (`kernel.dfy`) holds the three loops as methods on arrays:
  - `ComputeGroupDot` is the `k` loop.
  - `ComputeRow` is the `j` loop.
  - `KernelEntry` is the `i` loop followed by `halt()`.

  Each method is proved against the specification functions. `KernelEntry`
  also returns a ghost trace of its effects: the row stores in order, then
  the halt request to the HTIF `tohost` register.

A valid call (`Problem.Valid`) has these properties:

- `1 <= gs <= n`.
- `gs <= 131071`, the largest `gs` with `gs * 16384 <= 2^31 - 1`.
- `|xq| >= n` and `|xs| >= n / gs`.
- `|wq| >= d * n` and `|ws| >= (d * n - n % gs) / gs`, which is exactly the
  number of scales the code reads.

`KernelEntry` requires, in addition:

- `d * n < 2^64`.
- `xout` has at least `d` entries.
- `xout` is a different array from each of the four inputs.

## Model

| member | source | states |
|---|---|---|
| `MachineInts.SubU64` | matmul_kernel.cpp:66 | `n - gs` on `uint64_t`: the true difference when `gs <= n`, otherwise the difference plus 2^64 |
| `GroupedDot.ProductBound` | matmul_kernel.cpp:69 | the product of two sign-extended `int8_t` values lies in `[-16384, 16384]` |
| `GroupedDot.Problem.Valid` | matmul_kernel.cpp:57-71 | what a call needs: `1 <= gs <= n` (the loop advances, `n - gs` does not wrap, `j / gs` does not divide by zero), `gs <= 131071` (no `ival` overflow), and buffers covering every index of lines 68-71: `n` inputs, `n / gs` input scales, `d * n` weights, `(d * n - n % gs) / gs` weight scales |
| `GroupedDot.GroupDot` | matmul_kernel.cpp:67-70 | `ival` of a group is the exact sum of `xq[k] * wq[rowBase + k]` over `[lo, hi)`, and it is at most `16384` per term in magnitude |
| `GroupedDot.GroupDotFitsInt32` | matmul_kernel.cpp:67-70 | a group of at most 131071 products fits in `int32_t`, so `ival += ...` never overflows |
| `GroupedDot.OverflowBoundIsTight` | matmul_kernel.cpp:67-70 | a group of 131072 products of `-128 * -128` reaches `2^31`: the bound on `gs` cannot be raised |
| `GroupedDot.ZeroInputGroupDot` | matmul_kernel.cpp:67-70 | an all-zero input range gives `ival == 0`, whatever the weights |
| `GroupedDot.ConstantGroupDot` | matmul_kernel.cpp:67-70 | constant inputs `a` and weights `b` give `ival == (hi - lo) * a * b` |
| `GroupedDot.GuardMeansGroupsLeft` | matmul_kernel.cpp:66 | at `j = m * gs` the guard `j <= n - gs` holds if and only if `m < n / gs`: the row loop runs exactly `n / gs` times |
| `GroupedDot.GroupIndicesInBounds` | matmul_kernel.cpp:64-71 | for row `i < d`, group `m < n / gs` and `j = m * gs`: `j + gs <= n` (so `xq`'s `k < n`), `i*n + j + gs <= d*n` (so `wq`'s `i*n + k < d*n`), `j / gs == m < n / gs` (the `xs` index), and `(i*n + j) / gs < (d*n - n%gs) / gs` (the `ws` index) |
| `GroupedDot.GroupInBounds` | matmul_kernel.cpp:64-71 | the indices of group `m` of row `i` are within the buffers of a valid call, and the group's `ival` fits in `int32_t` |
| `GroupedDot.ScaleNeedIsExact` | matmul_kernel.cpp:63-71 | for `d >= 1`, the last group of row `d - 1` reads scale `(d*n - n%gs)/gs - 1`: the `ws` length `Valid` demands is exactly what the code reads |
| `GroupedDot.ScaleIndexLayout` | matmul_kernel.cpp:71 | when `gs` divides `n`, the scale index `(i*n + m*gs) / gs` is the row-major index `i*(n/gs) + m`, and the `ws` need is `d*(n/gs)` |
| `GroupedDot.RowAcc` | matmul_kernel.cpp:65-71 | defines `sum` after the first `m` groups of row `i`: a left fold starting from `Zero`, over groups in increasing `m` (offset `j = m * gs`), each step `fma(cvt(ival), mul(xs[j/gs], ws[(i*n + j)/gs]), sum)` with the scale product formed before the FMA |
| `GroupedDot.RowSum` | matmul_kernel.cpp:63-73 | defines `xout[i]`: the fold `RowAcc` over all `n / gs` whole groups of row `i` |
| `GroupedDot.RowAccStep` | matmul_kernel.cpp:66-71 | while the guard holds at `j = m * gs`, group `m` exists and its indices are in bounds, and the fold over `m + 1` groups is `fma(cvt(ival_m), mul(xs[j/gs], ws[(i*n + j)/gs]), fold over m groups)`: groups are folded left to right, the scale product is formed first |
| `GroupedDot.GroupOffsets` | matmul_kernel.cpp:66 | the offsets `j` the loop admits from `start` on while `j <= n - gs`, in order: each is at least `start` and at most `n - gs` (a whole group within the row), and each is the previous plus `gs` |
| `GroupedDot.GroupOffsetsStep` | matmul_kernel.cpp:66 | one pass of the guard appends the offset `j` to those visited, and the rest are the offsets from `j + gs` on |
| `GroupedDot.GroupOffsetsFrom` | matmul_kernel.cpp:66 | from offset `m * gs` the loop visits exactly `(m + t) * gs` for `t < n/gs - m` |
| `GroupedDot.GroupOffsetsAreWholeGroups` | matmul_kernel.cpp:66 | the offsets visited are exactly `0, gs, ..., (n/gs - 1) * gs`. They cover `n - n % gs` elements, which is all `n` if and only if `gs` divides `n`; otherwise the trailing partial group is dropped |
| `GroupedDot.SingleGroupRow` | matmul_kernel.cpp:65-73 | when `n == gs`, a row's result is one FMA onto `0` with scale `ws[i]` |
| `GroupedDot.WorkedExample` | matmul_kernel.cpp:63-73 | inputs `[1,2,3,4]`, weights all `1`, `gs = 2`: the row is `fma(cvt(7), mul(xs[1], ws[1]), fma(cvt(3), mul(xs[0], ws[0]), 0))` |
| `GroupedDot.MisalignedRowScale` | matmul_kernel.cpp:71 | with `n = 3`, `gs = 2`, `d = 3`, row 2 reads scale `ws[3]`, although a row-major layout has only `d*(n/gs) = 3` scales |
| `Kernel.GuardWrapsWhenGroupExceedsRow` | matmul_kernel.cpp:66-69 | when `gs > n`, `n - gs` wraps to a value of at least `n`, so the guard admits every offset up to `n`, `j = 0` included, and that first group's last index `gs - 1` is at or past the `n` inputs |
| `Kernel.RowBaseInRange` | matmul_kernel.cpp:64 | `in = i * n` for `i < d` satisfies `in + n <= d * n` |
| `Kernel.RowStores` | matmul_kernel.cpp:63-73 | the stores of the row loop after `count` iterations: `count` of them, the `t`-th storing row `t` |
| `Kernel.Schedule` | matmul_kernel.cpp:63-75 | the effects of a call: `d + 1` of them, row `t` stored at position `t`, the halt request last |
| `Kernel.RowStoresCount` | matmul_kernel.cpp:63-73 | the row loop's stores are one per row `r < count`, each exactly once |
| `Kernel.HaltOnceAfterAllRows` | matmul_kernel.cpp:63-75 | a call's effects are `d + 1` in number. The last is the halt request. Each row is stored exactly once, the halt happens exactly once, and nothing else happens |
| `Kernel.ComputeGroupDot` | matmul_kernel.cpp:67-70 | the `k` loop returns `ival == GroupDot` of the group, and no `int32_t` addition overflows on the way |
| `Kernel.RowStepInBounds` | matmul_kernel.cpp:64-71 | while the guard `j <= n - gs` holds, every index of the group at `j` is in bounds, and `in + j + gs` does not wrap |
| `Kernel.RowStepValue` | matmul_kernel.cpp:71 | the FMA at offset `j` extends the fold over the groups before it by the group at `j` |
| `Kernel.ComputeRow` | matmul_kernel.cpp:64-72 | the `j` loop returns `RowSum` of row `i`, and its ghost record of visited offsets equals `GroupOffsets(n, gs, 0)` |
| `Kernel.KernelEntry` | matmul_kernel.cpp:57-76 | afterwards `xout[r] == RowSum(r)` for every `r < d`, and `xout` is unchanged from `d` on. Only `xout` is modified, so `xq`, `xs`, `wq` and `ws` are never changed. The effect trace is `Schedule(d)`: rows `0 .. d-1` stored in order, then one halt |

## Left out

- The numerics of `f32_mul`, `f32_fma` and `i32_to_f32` are not modelled.
  These are the RISC-V F-extension instructions with `rne`
  (matmul_kernel.cpp:9-25) and the Cartesi soft-float calls
  (matmul_kernel.cpp:39-52). They appear only as the uninterpreted functions
  of a `Backend`. `soft-float.h` is not part of this model, so the bit
  equality of the two realizations cannot be stated. For the same reason
  there is no claim about float values such as linearity, or a zero result
  for zero inputs. Only the integer fact that zero inputs give `ival == 0` is
  proved.
- The OpenMP `parallel for` (matmul_kernel.cpp:62) is not modelled. Rows run
  one after another. Each row writes only `xout[i]` and reads only the
  unchanged inputs, and the frame and per-row postconditions say so.
- The `halt()` store of `1` to physical address `0x40008000`
  (matmul_kernel.cpp:28-29) is modelled only as the last entry of a ghost
  effect trace. The host's `halt()` is empty (matmul_kernel.cpp:54); the
  trace follows the guest.
- Linkage is not modelled: `naked` and `extern "C"`, the `#ifdef __riscv`
  selection, and the choice of `float32_t` as `float` or `uint32_t`
  (matmul_kernel.cpp:3-6, 32-37). A `Backend` parameter stands for the
  choice.
- `Kernel.KernelEntry` requires `xout` to be a different array from `xs` and
  `ws`. C++ allows these pointers to alias, and an `int8_t*` may alias
  anything; the kernel's results are only meaningful without aliasing. The
  requires also states that `xout` is not `xq` or `wq`. Those arrays have a
  different element type, so this always holds, but Dafny does not derive
  it.
- `GroupedDot.Problem.Valid` requires `gs <= 131071`. This is sufficient for
  `ival` never to overflow, but it is not necessary: a larger group whose
  products are small also fits. The C++ kernel has no such check.
  `OverflowBoundIsTight` shows that the bound cannot be raised for all
  inputs.
- `Kernel.KernelEntry` requires `d * n < 2^64`, so `i * n` and `in + k` never
  wrap. The C++ kernel would compute wrapped indices instead.
- The scale buffer `ws` is required to hold `(d * n - n % gs) / gs`
  entries, exactly the scales the code reads (`ScaleNeedIsExact`). A
  row-major layout of `d` rows of `n / gs` scales has `d * (n / gs)` entries.
  The two agree when `gs` divides `n` (`ScaleIndexLayout`). Otherwise, for
  some `d`, the code reads past that layout: with `n = 3`, `gs = 2` and
  `d = 3`, row 2 reads `ws[3]` (`MisalignedRowScale`). The model follows the
  code.
