/** The specification of one output row: the grouped integer dot products
    and the left fold that rescales and accumulates them. */
module GroupedDot {
  import opened MachineInts
  import opened Float32

  /** No product of two `int8_t` exceeds 128 * 128 in magnitude. */
  const PRODUCT_BOUND: int := 0x4000

  /** The largest group size `gs` with `gs * 16384 <= 2^31 - 1`, so that no
      group can overflow the `int32_t` accumulator. */
  const MAX_GROUP_SIZE: int := INT32_MAX / PRODUCT_BOUND

  /** The arguments of one kernel call, the buffers as their contents. */
  datatype Problem = Problem(
    xq: seq<Int8>, xs: seq<F32>,
    wq: seq<Int8>, ws: seq<F32>,
    n: nat, d: nat, gs: nat)
  {
    /** What a call needs: a group size that advances the loop, does not
        wrap `n - gs` and cannot overflow `ival`, and buffers long enough
        for every index the loop nest forms. The last scale read is that of
        the last group of row `d - 1`, so `ws` needs `(d * n - n % gs) / gs`
        entries (`ScaleNeedIsExact`); this is `d * (n / gs)` when `gs`
        divides `n`, and at most 0 when `d == 0`. */
    predicate Valid() {
      1 <= gs <= n && gs <= MAX_GROUP_SIZE &&
      |xq| >= n && |xs| >= n / gs &&
      |wq| >= d * n && |ws| >= (d * n - n % gs) / gs
    }
  }

  lemma ProductBound(a: Int8, b: Int8)
    ensures -PRODUCT_BOUND <= a as int * b as int <= PRODUCT_BOUND
  {
    var x, y := a as int, b as int;
    var ax := if x < 0 then -x else x;
    var ay := if y < 0 then -y else y;
    MulMonotone(ax, 128, ay);
    assert x * y == ax * ay || x * y == -(ax * ay);
  }

  /** `ival` of one group: the exact sum of `xq[k] * wq[rowBase + k]` for
      `k` in `[lo, hi)`, the `int8_t` operands sign-extended, accumulated
      for increasing `k`. */
  function GroupDot(xq: seq<Int8>, wq: seq<Int8>, rowBase: nat, lo: nat, hi: nat): (r: int)
    requires lo <= hi <= |xq| && rowBase + hi <= |wq|
    ensures -(hi - lo) * PRODUCT_BOUND <= r <= (hi - lo) * PRODUCT_BOUND
    decreases hi
  {
    if hi == lo then 0
    else
      ProductBound(xq[hi - 1], wq[rowBase + hi - 1]);
      GroupDot(xq, wq, rowBase, lo, hi - 1) + xq[hi - 1] as int * wq[rowBase + hi - 1] as int
  }

  /** A group of at most MAX_GROUP_SIZE products fits in `int32_t`. */
  lemma GroupDotFitsInt32(xq: seq<Int8>, wq: seq<Int8>, rowBase: nat, lo: nat, hi: nat)
    requires lo <= hi <= |xq| && rowBase + hi <= |wq|
    requires hi - lo <= MAX_GROUP_SIZE
    ensures -0x8000_0000 <= GroupDot(xq, wq, rowBase, lo, hi) <= INT32_MAX
  {
  }

  /** The loop guard `j <= n - gs` at offset `j = m * gs` holds exactly
      while whole groups remain: the loop runs `n / gs` times. */
  lemma GuardMeansGroupsLeft(n: nat, gs: nat, m: nat)
    requires 1 <= gs <= n
    ensures m * gs <= n - gs <==> m < n / gs
  {
    var q := n / gs;
    assert n == q * gs + n % gs;
    if m < q {
      MulMonotone(m + 1, q, gs);
      assert (m + 1) * gs == m * gs + gs;
    } else {
      MulMonotone(q + 1, m + 1, gs);
      assert (m + 1) * gs == m * gs + gs;
      assert (q + 1) * gs == q * gs + gs;
    }
  }

  /** Every index the loop nest forms for row `i` and group `m` is in
      bounds: `k < n` for `xq`, `i * n + k < d * n` for `wq`,
      `j / gs < n / gs` for `xs`, `(i * n + j) / gs < (d * n - n % gs) / gs`
      for `ws`, where `j = m * gs` and `j <= k < j + gs`. */
  lemma GroupIndicesInBounds(n: nat, d: nat, gs: nat, i: nat, m: nat)
    requires 1 <= gs <= n && i < d && m < n / gs
    ensures m * gs + gs <= n
    ensures (m * gs) / gs == m
    ensures i * n + m * gs + gs <= d * n
    ensures (i * n + m * gs) / gs < (d * n - n % gs) / gs
  {
    GuardMeansGroupsLeft(n, gs, m);
    DivOfMultiple(m, gs, 0);
    MulMonotone(i + 1, d, n);
    assert (i + 1) * n == i * n + n;
    MulMonotone(m + 1, n / gs, gs);
    assert (m + 1) * gs == m * gs + gs;
    assert n == (n / gs) * gs + n % gs;
    var x := i * n + m * gs;
    DivUnique(x + gs, gs, x / gs + 1, x % gs);
    DivMonotone(x + gs, d * n - n % gs, gs);
  }

  /** The `ws` requirement of `Valid` is exactly what the code reads: the
      last group of the last row reads scale `(d * n - n % gs) / gs - 1`. */
  lemma ScaleNeedIsExact(n: nat, d: nat, gs: nat)
    requires 1 <= gs <= n && 1 <= d
    ensures 1 <= n / gs && (d - 1) * n + (n / gs - 1) * gs + gs == d * n - n % gs
    ensures ((d - 1) * n + (n / gs - 1) * gs) / gs == (d * n - n % gs) / gs - 1
  {
    var q := n / gs;
    DivMonotone(gs, n, gs);
    DivOfMultiple(1, gs, 0);
    assert n == q * gs + n % gs;
    assert (q - 1) * gs + gs == q * gs;
    assert (d - 1) * n + n == d * n;
    var x := (d - 1) * n + (q - 1) * gs;
    DivUnique(x + gs, gs, x / gs + 1, x % gs);
  }

  /** When `gs` divides `n`, the scale index `(i * n + j) / gs` of the code
      is the row-major layout `i * (n / gs) + j / gs` of `d` rows of
      `n / gs` scales each. */
  lemma ScaleIndexLayout(n: nat, d: nat, gs: nat, i: nat, m: nat)
    requires 1 <= gs && n % gs == 0
    ensures (i * n + m * gs) / gs == i * (n / gs) + m
    ensures (d * n - n % gs) / gs == d * (n / gs)
  {
    var q := n / gs;
    assert n == q * gs;
    assert i * n == (i * q) * gs;
    assert i * n + m * gs == (i * q + m) * gs;
    DivOfMultiple(i * q + m, gs, 0);
    assert d * n == (d * q) * gs;
    DivOfMultiple(d * q, gs, 0);
  }

  /** GroupIndicesInBounds stated for the buffers of a valid call, with
      `rowBase = i * n` and `j = m * gs`. */
  lemma GroupInBounds(p: Problem, i: nat, m: nat, rowBase: nat, j: nat)
    requires p.Valid() && i < p.d && m < p.n / p.gs
    requires rowBase == i * p.n && j == m * p.gs
    ensures j + p.gs <= p.n <= |p.xq|
    ensures rowBase + j + p.gs <= p.d * p.n <= |p.wq|
    ensures 0 <= j / p.gs < |p.xs| && j / p.gs <= j
    ensures 0 <= (rowBase + j) / p.gs < |p.ws| && (rowBase + j) / p.gs <= rowBase + j
    ensures -0x8000_0000 <= GroupDot(p.xq, p.wq, rowBase, j, j + p.gs) <= INT32_MAX
  {
    DivAtMost(j, p.gs);
    DivAtMost(rowBase + j, p.gs);
    GroupIndicesInBounds(p.n, p.d, p.gs, i, m);
    GroupDotFitsInt32(p.xq, p.wq, rowBase, j, j + p.gs);
  }

  /** The value of `sum` after the first `m` groups of row `i`: a left
      fold from `Zero` over the offsets `j = 0, gs, ...`, each step
      `fma(cvt(ival), mul(xs[j / gs], ws[(i * n + j) / gs]), sum)`. */
  function RowAcc(p: Problem, ops: Backend, i: nat, m: nat): F32
    requires p.Valid() && i < p.d && m <= p.n / p.gs
    decreases m
  {
    if m == 0 then Zero
    else
      var rowBase, j := i * p.n, (m - 1) * p.gs;
      GroupInBounds(p, i, m - 1, rowBase, j);
      var ival := GroupDot(p.xq, p.wq, rowBase, j, j + p.gs) as Int32;
      ops.fma(ops.cvt(ival), ops.mul(p.xs[j / p.gs], p.ws[(rowBase + j) / p.gs]), RowAcc(p, ops, i, m - 1))
  }

  /** One step of the `j` loop: while the guard holds, the fold over
      `m + 1` groups extends the fold over `m` groups by group `m`. */
  lemma RowAccStep(p: Problem, ops: Backend, i: nat, m: nat, rowBase: nat, j: nat)
    requires p.Valid() && i < p.d && j <= p.n - p.gs
    requires rowBase == i * p.n && j == m * p.gs
    ensures m + 1 <= p.n / p.gs
    ensures j + p.gs <= p.n <= |p.xq|
    ensures rowBase + j + p.gs <= p.d * p.n <= |p.wq|
    ensures 0 <= j / p.gs < |p.xs| && j / p.gs <= j
    ensures 0 <= (rowBase + j) / p.gs < |p.ws| && (rowBase + j) / p.gs <= rowBase + j
    ensures -0x8000_0000 <= GroupDot(p.xq, p.wq, rowBase, j, j + p.gs) <= INT32_MAX
    ensures RowAcc(p, ops, i, m + 1)
         == ops.fma(ops.cvt(GroupDot(p.xq, p.wq, rowBase, j, j + p.gs) as Int32),
                    ops.mul(p.xs[j / p.gs], p.ws[(rowBase + j) / p.gs]),
                    RowAcc(p, ops, i, m))
  {
    GuardMeansGroupsLeft(p.n, p.gs, m);
    GroupInBounds(p, i, m, rowBase, j);
    assert (m + 1 - 1) * p.gs == j;
  }

  /** `xout[i]`: the fold over all `n / gs` whole groups of row `i`. */
  function RowSum(p: Problem, ops: Backend, i: nat): F32
    requires p.Valid() && i < p.d
  {
    RowAcc(p, ops, i, p.n / p.gs)
  }

  /** The offsets `j` the loop `for (j = start; j <= n - gs; j += gs)`
      visits, in order. */
  function GroupOffsets(n: nat, gs: nat, start: nat): (r: seq<nat>)
    requires 1 <= gs <= n && start <= n
    ensures forall t :: 0 <= t < |r| ==> start <= r[t] <= n - gs
    ensures forall t :: 0 < t < |r| ==> r[t] == r[t - 1] + gs
    decreases n - start
  {
    if start <= n - gs then [start] + GroupOffsets(n, gs, start + gs) else []
  }

  /** One iteration of the loop while its guard holds: the offsets already
      visited, then `j`, then those from `j + gs` on, are all the offsets. */
  lemma GroupOffsetsStep(n: nat, gs: nat, j: nat, visited: seq<nat>)
    requires 1 <= gs <= n && j <= n - gs
    requires visited + GroupOffsets(n, gs, j) == GroupOffsets(n, gs, 0)
    ensures (visited + [j]) + GroupOffsets(n, gs, j + gs) == GroupOffsets(n, gs, 0)
  {
    assert GroupOffsets(n, gs, j) == [j] + GroupOffsets(n, gs, j + gs);
    assert (visited + [j]) + GroupOffsets(n, gs, j + gs) == visited + ([j] + GroupOffsets(n, gs, j + gs));
  }

  /** From offset `m * gs` the loop visits the remaining multiples of `gs`
      up to the last whole group. */
  lemma {:induction false} GroupOffsetsFrom(n: nat, gs: nat, m: nat)
    requires 1 <= gs <= n && m <= n / gs
    ensures m * gs <= n
    ensures GroupOffsets(n, gs, m * gs) == seq(n / gs - m, t => (m + t) * gs)
    decreases n / gs - m
  {
    GuardMeansGroupsLeft(n, gs, m);
    if m < n / gs {
      assert (m + 1) * gs == m * gs + gs;
      GroupOffsetsFrom(n, gs, m + 1);
      var tail := seq(n / gs - (m + 1), t => (m + 1 + t) * gs);
      assert GroupOffsets(n, gs, m * gs) == [m * gs] + tail;
      forall t | 0 < t < n / gs - m
        ensures ([m * gs] + tail)[t] == (m + t) * gs
      {
        assert ([m * gs] + tail)[t] == tail[t - 1];
      }
    } else {
      DivOfMultiple(m, gs, 0);
      assert n == (n / gs) * gs + n % gs;
    }
  }

  /** The loop visits exactly the offsets `0, gs, 2 * gs, ...` of the
      `n / gs` whole groups; the groups cover `n - n % gs` elements, all
      `n` of them exactly when `gs` divides `n`, and otherwise the trailing
      `n % gs` elements are dropped. */
  lemma GroupOffsetsAreWholeGroups(n: nat, gs: nat)
    requires 1 <= gs <= n
    ensures GroupOffsets(n, gs, 0) == seq(n / gs, t => t * gs)
    ensures (n / gs) * gs == n - n % gs
    ensures (n / gs) * gs == n <==> n % gs == 0
  {
    GroupOffsetsFrom(n, gs, 0);
    assert GroupOffsets(n, gs, 0) == seq(n / gs, t => (0 + t) * gs);
  }

  /** An all-zero input range gives `ival == 0`, whatever the weights. */
  lemma {:induction false} ZeroInputGroupDot(xq: seq<Int8>, wq: seq<Int8>, rowBase: nat, lo: nat, hi: nat)
    requires lo <= hi <= |xq| && rowBase + hi <= |wq|
    requires forall k :: lo <= k < hi ==> xq[k] == 0
    ensures GroupDot(xq, wq, rowBase, lo, hi) == 0
    decreases hi
  {
    if hi > lo {
      ZeroInputGroupDot(xq, wq, rowBase, lo, hi - 1);
    }
  }

  /** A group whose inputs are all `a` and weights all `b` sums to
      `(hi - lo) * a * b`. */
  lemma {:induction false} ConstantGroupDot(xq: seq<Int8>, wq: seq<Int8>, rowBase: nat, lo: nat, hi: nat, a: Int8, b: Int8)
    requires lo <= hi <= |xq| && rowBase + hi <= |wq|
    requires forall k :: lo <= k < hi ==> xq[k] == a
    requires forall k :: rowBase + lo <= k < rowBase + hi ==> wq[k] == b
    ensures GroupDot(xq, wq, rowBase, lo, hi) == (hi - lo) * (a as int * b as int)
    decreases hi
  {
    if hi > lo {
      ConstantGroupDot(xq, wq, rowBase, lo, hi - 1, a, b);
      var c := a as int * b as int;
      assert (hi - 1 - lo) * c + c == (hi - lo) * c;
    }
  }

  /** MAX_GROUP_SIZE cannot be raised: one more product of `-128 * -128`
      takes `ival` to 2^31, past `INT32_MAX`. */
  lemma OverflowBoundIsTight()
    ensures var g := MAX_GROUP_SIZE + 1;
            var s := seq(g, _ => -128 as Int8);
            GroupDot(s, s, 0, 0, g) == INT32_MAX + 1
  {
    var g := MAX_GROUP_SIZE + 1;
    var s := seq(g, _ => -128 as Int8);
    ConstantGroupDot(s, s, 0, 0, g, -128, -128);
  }

  /** A row of one group (`n == gs`) is a single FMA onto `Zero`, with the
      row's own weight scale `ws[i]`. */
  lemma SingleGroupRow(p: Problem, ops: Backend, i: nat)
    requires p.Valid() && i < p.d && p.n == p.gs
    ensures p.n / p.gs == 1 && (i * p.n) / p.gs == i < |p.ws|
    ensures i * p.n + p.n <= |p.wq|
    ensures -0x8000_0000 <= GroupDot(p.xq, p.wq, i * p.n, 0, p.n) <= INT32_MAX
    ensures RowSum(p, ops, i)
         == ops.fma(ops.cvt(GroupDot(p.xq, p.wq, i * p.n, 0, p.n) as Int32),
                    ops.mul(p.xs[0], p.ws[i]), Zero)
  {
    DivOfMultiple(1, p.n, 0);
    DivOfMultiple(i, p.n, 0);
    GroupInBounds(p, i, 0, i * p.n, 0);
    assert RowSum(p, ops, i) == RowAcc(p, ops, i, 1);
  }

  /** Four inputs in two groups of two: `ival` is 3 for the first group and
      7 for the second, and the row folds them in that order. */
  lemma WorkedExample(ops: Backend, xs: seq<F32>, ws: seq<F32>)
    requires |xs| == 2 && |ws| == 2
    ensures var p := Problem([1, 2, 3, 4], xs, [1, 1, 1, 1], ws, 4, 1, 2);
            p.Valid() &&
            RowSum(p, ops, 0)
            == ops.fma(ops.cvt(7), ops.mul(xs[1], ws[1]),
                       ops.fma(ops.cvt(3), ops.mul(xs[0], ws[0]), Zero))
  {
    var p := Problem([1, 2, 3, 4], xs, [1, 1, 1, 1], ws, 4, 1, 2);
    assert GroupDot(p.xq, p.wq, 0, 0, 2) == 3;
    assert GroupDot(p.xq, p.wq, 0, 2, 4) == 7;
    assert RowAcc(p, ops, 0, 1) == ops.fma(ops.cvt(3), ops.mul(xs[0], ws[0]), Zero);
  }

  /** When `gs` does not divide `n` (here `n = 3`, `gs = 2`, `d = 3`), each
      row keeps one group and drops its last input, and row 2 reads scale
      `ws[3]`, past the `d * (n / gs) = 3` scales of a row-major layout,
      instead of its own `ws[2]`. */
  lemma MisalignedRowScale(p: Problem, ops: Backend)
    requires p.n == 3 && p.gs == 2 && p.d == 3 && p.Valid()
    ensures p.d * (p.n / p.gs) == 3
    ensures RowSum(p, ops, 2)
         == ops.fma(ops.cvt(GroupDot(p.xq, p.wq, 6, 0, 2) as Int32),
                    ops.mul(p.xs[0], p.ws[3]), Zero)
  {
    assert RowSum(p, ops, 2) == RowAcc(p, ops, 2, 1);
  }
}
