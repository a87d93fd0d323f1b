/** `kernel_entry`: the loop nest over rows `i`, group offsets `j` and
    group elements `k`, the writes to `xout` and the final `halt()`. */
module Kernel {
  import opened MachineInts
  import opened Float32
  import opened GroupedDot

  /** The HTIF `tohost` register that the guest's `halt()` writes. */
  const HTIF_TOHOST: int := 0x4000_8000

  /** The value written there: a stop request to the supervisor. */
  const HTIF_HALT: int := 1

  /** The observable effects of a call, in program order: a store of a
      row's result into `xout`, or a store to a device register. */
  datatype Effect = StoreRow(row: nat) | MmioWrite(addr: int, value: int)

  const HaltRequest: Effect := MmioWrite(HTIF_TOHOST, HTIF_HALT)

  /** The stores of rows `0 .. count - 1`, in loop order. */
  function RowStores(count: nat): (r: seq<Effect>)
    ensures |r| == count
    ensures forall t :: 0 <= t < count ==> r[t] == StoreRow(t)
  {
    if count == 0 then [] else RowStores(count - 1) + [StoreRow(count - 1)]
  }

  /** The effects of a call with `d` rows: every row, then one halt. */
  function Schedule(d: nat): (r: seq<Effect>)
    ensures |r| == d + 1 && r[d] == HaltRequest
    ensures forall t :: 0 <= t < d ==> r[t] == StoreRow(t)
  {
    RowStores(d) + [HaltRequest]
  }

  lemma {:induction false} RowStoresCount(count: nat, e: Effect)
    ensures |RowStores(count)| == count
    ensures multiset(RowStores(count))[e] == if e.StoreRow? && e.row < count then 1 else 0
  {
    if count > 0 {
      RowStoresCount(count - 1, e);
      var prev := RowStores(count - 1);
      assert multiset(RowStores(count)) == multiset(prev) + multiset{StoreRow(count - 1)};
    }
  }

  /** The completion signal is raised exactly once, as the last effect, and
      before it each of the `d` rows is stored exactly once; nothing else
      happens. */
  lemma HaltOnceAfterAllRows(d: nat)
    ensures |Schedule(d)| == d + 1 && Schedule(d)[d] == HaltRequest
    ensures forall e :: multiset(Schedule(d))[e]
              == if e == HaltRequest || (e.StoreRow? && e.row < d) then 1 else 0
  {
    RowStoresCount(d, HaltRequest);
    forall e
      ensures multiset(Schedule(d))[e]
              == if e == HaltRequest || (e.StoreRow? && e.row < d) then 1 else 0
    {
      RowStoresCount(d, e);
    }
  }

  /** Without `gs <= n` the bound `n - gs` wraps: the guard admits every
      offset up to `n`, so the loop does not stop before it has passed the
      row, and already its first group `j = 0` reads `xq[gs - 1]`, at or
      past index `n`. */
  lemma GuardWrapsWhenGroupExceedsRow(n: U64, gs: U64)
    requires n < gs
    ensures n <= SubU64(n, gs)
    ensures 0 <= SubU64(n, gs) && 0 + gs as int - 1 >= n as int
  {
  }

  /** Row `i < d` starts at `i * n` and ends by `d * n`. */
  lemma RowBaseInRange(i: nat, n: nat, d: nat)
    requires i < d
    ensures 0 <= i * n && i * n + n <= d * n
  {
    MulMonotone(i + 1, d, n);
  }

  /** The contents of the kernel's arguments. */
  function ProblemOf(xq: array<Int8>, xs: array<F32>, wq: array<Int8>, ws: array<F32>,
                     n: U64, d: U64, gs: U64): Problem
    reads xq, xs, wq, ws
  {
    Problem(xq[..], xs[..], wq[..], ws[..], n as nat, d as nat, gs as nat)
  }

  /** The `k` loop: `ival` of the group at offset `j` of the row starting
      at `rowBase`, accumulated in `int32_t` without overflow. */
  method ComputeGroupDot(xq: array<Int8>, wq: array<Int8>, rowBase: U64, j: U64, gs: U64)
    returns (ival: Int32)
    requires gs as int <= MAX_GROUP_SIZE
    requires j as int + gs as int <= xq.Length
    requires rowBase as int + j as int + gs as int <= wq.Length
    requires rowBase as int + j as int + gs as int < U64_MODULUS
    ensures ival as int == GroupDot(xq[..], wq[..], rowBase as nat, j as nat, j as nat + gs as nat)
  {
    ival := 0;
    var k := j;
    while k < gs + j
      invariant j <= k <= gs + j
      invariant ival as int == GroupDot(xq[..], wq[..], rowBase as nat, j as nat, k as nat)
    {
      ProductBound(xq[k], wq[rowBase + k]);
      ival := ival + (xq[k] as Int32) * (wq[rowBase + k] as Int32);
      k := k + 1;
    }
  }

  /** The bounds the `j` loop needs at offset `j = m * gs` of row `i`
      while its guard holds. */
  lemma RowStepInBounds(xq: array<Int8>, xs: array<F32>, wq: array<Int8>, ws: array<F32>,
                        n: U64, d: U64, gs: U64, i: U64, m: nat, rowBase: U64, j: U64)
    requires ProblemOf(xq, xs, wq, ws, n, d, gs).Valid() && i < d
    requires d as int * n as int < U64_MODULUS
    requires rowBase as int == i as int * n as int && j as int == m * gs as int
    requires j <= SubU64(n, gs)
    ensures m + 1 <= n as int / gs as int && (m + 1) * gs as int == j as int + gs as int <= n as int
    ensures j as int + gs as int <= xq.Length && gs as int <= MAX_GROUP_SIZE
    ensures rowBase as int + j as int + gs as int <= wq.Length
    ensures rowBase as int + j as int + gs as int < U64_MODULUS
    ensures 0 <= j as int / gs as int < xs.Length
    ensures 0 <= (rowBase as int + j as int) / gs as int < ws.Length
  {
    var p := ProblemOf(xq, xs, wq, ws, n, d, gs);
    GuardMeansGroupsLeft(p.n, p.gs, m);
    GroupInBounds(p, i as nat, m, rowBase as nat, j as nat);
  }

  /** One iteration of the `j` loop extends the fold by the group at `j`. */
  lemma RowStepValue(xq: array<Int8>, xs: array<F32>, wq: array<Int8>, ws: array<F32>,
                     n: U64, d: U64, gs: U64, i: U64, m: nat, rowBase: U64, j: U64,
                     ops: Backend, ival: Int32)
    requires ProblemOf(xq, xs, wq, ws, n, d, gs).Valid() && i < d
    requires rowBase as int == i as int * n as int && j as int == m * gs as int
    requires j as int + gs as int <= n as int && m + 1 <= n as int / gs as int
    requires j as int + gs as int <= xq.Length && rowBase as int + j as int + gs as int <= wq.Length
    requires 0 <= j as int / gs as int < xs.Length
    requires 0 <= (rowBase as int + j as int) / gs as int < ws.Length
    requires ival as int == GroupDot(xq[..], wq[..], rowBase as nat, j as nat, j as nat + gs as nat)
    ensures RowAcc(ProblemOf(xq, xs, wq, ws, n, d, gs), ops, i as nat, m + 1)
         == ops.fma(ops.cvt(ival),
                    ops.mul(xs[j as int / gs as int], ws[(rowBase as int + j as int) / gs as int]),
                    RowAcc(ProblemOf(xq, xs, wq, ws, n, d, gs), ops, i as nat, m))
  {
    var p := ProblemOf(xq, xs, wq, ws, n, d, gs);
    RowAccStep(p, ops, i as nat, m, rowBase as nat, j as nat);
  }

  /** The `j` loop for row `i`: visits the offsets of the `n / gs` whole
      groups in increasing order and returns their left fold. */
  method ComputeRow(xq: array<Int8>, xs: array<F32>, wq: array<Int8>, ws: array<F32>,
                    n: U64, d: U64, gs: U64, i: U64, ops: Backend)
    returns (sum: F32, ghost visited: seq<nat>)
    requires ProblemOf(xq, xs, wq, ws, n, d, gs).Valid() && i < d
    requires d as int * n as int < U64_MODULUS
    ensures sum == RowSum(ProblemOf(xq, xs, wq, ws, n, d, gs), ops, i as nat)
    ensures visited == GroupOffsets(n as nat, gs as nat, 0)
  {
    RowBaseInRange(i as nat, n as nat, d as nat);
    ghost var offsets := GroupOffsets(n as nat, gs as nat, 0);
    var rowBase := i * n;
    sum := Zero;
    var j: U64 := 0;
    ghost var m: nat := 0;
    visited := [];
    while j <= SubU64(n, gs)
      invariant j as int == m * gs as int <= n as int
      invariant m <= n as int / gs as int
      invariant sum == RowAcc(ProblemOf(xq, xs, wq, ws, n, d, gs), ops, i as nat, m)
      invariant visited + GroupOffsets(n as nat, gs as nat, j as nat) == offsets
      decreases n as int - j as int
    {
      RowStepInBounds(xq, xs, wq, ws, n, d, gs, i, m, rowBase, j);
      var ival := ComputeGroupDot(xq, wq, rowBase, j, gs);
      RowStepValue(xq, xs, wq, ws, n, d, gs, i, m, rowBase, j, ops, ival);
      sum := ops.fma(ops.cvt(ival), ops.mul(xs[j as int / gs as int], ws[(rowBase as int + j as int) / gs as int]), sum);
      GroupOffsetsStep(n as nat, gs as nat, j as nat, visited);
      visited := visited + [j as nat];
      j := j + gs;
      m := m + 1;
    }
    GuardMeansGroupsLeft(n as nat, gs as nat, m);
    assert visited + [] == visited;
  }

  /** `kernel_entry`: writes `RowSum` to `xout[i]` for every row `i < d`,
      leaves the rest of `xout` alone, and then halts, once. The rows run
      one after another here; each writes only its own slot and reads
      only the unchanged inputs. */
  method KernelEntry(xout: array<F32>, xq: array<Int8>, xs: array<F32>, wq: array<Int8>, ws: array<F32>,
                     n: U64, d: U64, gs: U64, ops: Backend)
    returns (ghost trace: seq<Effect>)
    requires ProblemOf(xq, xs, wq, ws, n, d, gs).Valid()
    requires d as int * n as int < U64_MODULUS
    requires xout.Length >= d as int
    requires xout != xs && xout != ws && xout != xq as object && xout != wq as object
    modifies xout
    ensures forall r :: 0 <= r < d as int ==> xout[r] == RowSum(ProblemOf(xq, xs, wq, ws, n, d, gs), ops, r)
    ensures forall r :: d as int <= r < xout.Length ==> xout[r] == old(xout[r])
    ensures trace == Schedule(d as nat)
  {
    ghost var p := ProblemOf(xq, xs, wq, ws, n, d, gs);
    trace := [];
    var i: U64 := 0;
    while i < d
      invariant i <= d
      invariant xq[..] == p.xq && xs[..] == p.xs && wq[..] == p.wq && ws[..] == p.ws
      invariant forall r :: 0 <= r < i as int ==> xout[r] == RowSum(p, ops, r)
      invariant forall r :: i as int <= r < xout.Length ==> xout[r] == old(xout[r])
      invariant trace == RowStores(i as nat)
    {
      var sum;
      ghost var visited;
      sum, visited := ComputeRow(xq, xs, wq, ws, n, d, gs, i, ops);
      xout[i] := sum;
      trace := trace + [StoreRow(i as nat)];
      i := i + 1;
    }
    // halt(): the guest's store of HTIF_HALT to HTIF_TOHOST.
    trace := trace + [HaltRequest];
  }
}
