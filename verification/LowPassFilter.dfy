/**
 * The fixed-point fifth-order low-pass filter. Its transposed form with five history cells is shown
 * to compute the difference equation, and no 32-bit operation of it ever overflows.
 */
module LowPassFilter {

  // Q13 coefficients
  const A: seq<int> := [502, 2511, 5022, 5022, 2511, 502]
  const B: seq<int> := [8192, 1565, 5293, 533, 472, 14]

  /** Every output stays within this bound. */
  const OUTPUT_BOUND: int := 191_000

  predicate IsInt16(v: int) {
    -32768 <= v <= 32767
  }

  predicate IsInt32(v: int) {
    -0x8000_0000 <= v <= 0x7FFF_FFFF
  }

  predicate AllInt16(s: seq<int>) {
    forall i :: 0 <= i < |s| ==> IsInt16(s[i])
  }

  /** v >> 13 */
  function Scale(v: int): (r: int)
    ensures 8192 * r <= v < 8192 * r + 8192
  {
    v / 8192
  }

  // ------------------------------------------------------------------------ the difference equation

  /** A signal that is zero outside its samples. */
  function At(s: seq<int>, i: int): int {
    if 0 <= i < |s| then s[i] else 0
  }

  /** What a sample and its output contribute k steps later. */
  function Contribution(k: nat, x: int, y: int): int
    requires 1 <= k <= 5
  {
    Scale(x * A[k]) - Scale(y * B[k])
  }

  /** What input and output at time n contribute k steps later. */
  function Term(xs: seq<int>, ys: seq<int>, k: nat, n: int): int
    requires 1 <= k <= 5
  {
    Contribution(k, At(xs, n), At(ys, n))
  }

  function Response(xs: seq<int>, ys: seq<int>, n: int): int {
    Scale(At(xs, n) * A[0]) + Term(xs, ys, 1, n - 1) + Term(xs, ys, 2, n - 2) + Term(xs, ys, 3, n - 3)
    + Term(xs, ys, 4, n - 4) + Term(xs, ys, 5, n - 5)
  }

  ghost predicate OutputAt(xs: seq<int>, ys: seq<int>, n: int) {
    At(ys, n) == Response(xs, ys, n)
  }

  /** ys is the filter's output for xs. */
  ghost predicate IsOutput(xs: seq<int>, ys: seq<int>) {
    |ys| == |xs| && forall n :: 0 <= n < |xs| ==> OutputAt(xs, ys, n)
  }

  // ------------------------------------------------------------------------ boundedness

  /** 8192 y0 = sum of a_k x_k - sum of b_k y_k, up to the rounding of eleven shifts. */
  predicate Balanced(x0: int, x1: int, x2: int, x3: int, x4: int, x5: int,
                     y0: int, y1: int, y2: int, y3: int, y4: int, y5: int)
  {
    var exact := 502 * x0 + 2511 * x1 + 5022 * x2 + 5022 * x3 + 2511 * x4 + 502 * x5
                 - 1565 * y1 - 5293 * y2 - 533 * y3 - 472 * y4 - 14 * y5;
    exact - 6 * 8192 <= 8192 * y0 <= exact + 5 * 8192
  }

  predicate Near(y: int) {
    -OUTPUT_BOUND <= y <= OUTPUT_BOUND
  }

  lemma ResponseIsBalanced(xs: seq<int>, ys: seq<int>, n: int)
    requires OutputAt(xs, ys, n)
    ensures Balanced(At(xs, n), At(xs, n - 1), At(xs, n - 2), At(xs, n - 3), At(xs, n - 4), At(xs, n - 5),
                     At(ys, n), At(ys, n - 1), At(ys, n - 2), At(ys, n - 3), At(ys, n - 4), At(ys, n - 5))
  {
  }

  /**
   * Eliminating y1 from two consecutive equations leaves feedback coefficients whose absolute sum is
   * 0.723: outputs bounded so far bound the next one.
   */
  lemma TwoStepsContract(
    x0: int, x1: int, x2: int, x3: int, x4: int, x5: int, x6: int,
    y0: int, y1: int, y2: int, y3: int, y4: int, y5: int, y6: int)
    requires Balanced(x0, x1, x2, x3, x4, x5, y0, y1, y2, y3, y4, y5)
    requires Balanced(x1, x2, x3, x4, x5, x6, y1, y2, y3, y4, y5, y6)
    requires IsInt16(x0) && IsInt16(x1) && IsInt16(x2) && IsInt16(x3) && IsInt16(x4) && IsInt16(x5) && IsInt16(x6)
    requires Near(y2) && Near(y3) && Near(y4) && Near(y5) && Near(y6)
    ensures Near(y0)
  {
  }

  lemma SilenceBefore(xs: seq<int>, ys: seq<int>, n: int)
    requires n < 0
    ensures OutputAt(xs, ys, n)
  {
  }

  lemma NextIsNear(xs: seq<int>, ys: seq<int>, n: int)
    requires AllInt16(xs) && OutputAt(xs, ys, n) && OutputAt(xs, ys, n - 1)
    requires Near(At(ys, n - 2)) && Near(At(ys, n - 3)) && Near(At(ys, n - 4)) && Near(At(ys, n - 5))
    requires Near(At(ys, n - 6))
    ensures Near(At(ys, n))
  {
    ResponseIsBalanced(xs, ys, n);
    ResponseIsBalanced(xs, ys, n - 1);
    TwoStepsContract(
      At(xs, n), At(xs, n - 1), At(xs, n - 2), At(xs, n - 3), At(xs, n - 4), At(xs, n - 5), At(xs, n - 6),
      At(ys, n), At(ys, n - 1), At(ys, n - 2), At(ys, n - 3), At(ys, n - 4), At(ys, n - 5), At(ys, n - 6));
  }

  /** For every sequence of 16-bit samples, of any length, every output is bounded. */
  lemma {:induction false} OutputBounded(xs: seq<int>, ys: seq<int>, n: int)
    requires IsOutput(xs, ys) && AllInt16(xs) && n < |ys|
    ensures Near(At(ys, n))
    decreases if n < 0 then 0 else n + 1
  {
    if n >= 0 {
      OutputBounded(xs, ys, n - 2);
      OutputBounded(xs, ys, n - 3);
      OutputBounded(xs, ys, n - 4);
      OutputBounded(xs, ys, n - 5);
      OutputBounded(xs, ys, n - 6);
      if n == 0 {
        SilenceBefore(xs, ys, -1);
      }
      NextIsNear(xs, ys, n);
    }
  }

  // ------------------------------------------------------------------------ the history cells

  /**
   * The contributions k, k + 1, ..., 5 steps back from time t. After n samples, cell i must hold
   * those to the output at n + i that come from i + 1 steps back or more.
   */
  function CellFrom(xs: seq<int>, ys: seq<int>, t: int, k: nat): int
    requires 1 <= k <= 6
    decreases 6 - k
  {
    if k == 6 then 0 else Term(xs, ys, k, t - k) + CellFrom(xs, ys, t, k + 1)
  }

  lemma ResponseIsCells(xs: seq<int>, ys: seq<int>, n: int)
    ensures Response(xs, ys, n) == Scale(At(xs, n) * A[0]) + CellFrom(xs, ys, n, 1)
  {
    assert CellFrom(xs, ys, n, 4) == Term(xs, ys, 4, n - 4) + Term(xs, ys, 5, n - 5);
    assert CellFrom(xs, ys, n, 2) == Term(xs, ys, 2, n - 2) + Term(xs, ys, 3, n - 3) + CellFrom(xs, ys, n, 4);
  }

  /** Contributions from before the last sample do not depend on it. */
  lemma {:induction false} CellFromLocal(xs: seq<int>, ys: seq<int>, x: int, y: int, t: int, k: nat)
    requires |xs| == |ys| && 1 <= k <= 6 && t - k < |xs|
    ensures CellFrom(xs + [x], ys + [y], t, k) == CellFrom(xs, ys, t, k)
    decreases 6 - k
  {
    if k < 6 {
      assert At(xs + [x], t - k) == At(xs, t - k) && At(ys + [y], t - k) == At(ys, t - k);
      CellFromLocal(xs, ys, x, y, t, k + 1);
    }
  }

  lemma {:induction false} ResponseExtends(xs: seq<int>, ys: seq<int>, x: int, y: int, n: nat)
    requires |xs| == |ys| && n <= |xs|
    ensures Response(xs + [x], ys + [y], n) ==
            Scale((if n < |xs| then xs[n] else x) * A[0]) + CellFrom(xs, ys, n, 1)
  {
    ResponseIsCells(xs + [x], ys + [y], n);
    CellFromLocal(xs, ys, x, y, n, 1);
  }

  lemma {:induction false} OutputAtExtends(xs: seq<int>, ys: seq<int>, x: int, y: int, n: nat)
    requires |xs| == |ys| && n <= |xs| && y == Scale(x * A[0]) + CellFrom(xs, ys, |xs|, 1)
    requires n < |xs| ==> OutputAt(xs, ys, n)
    ensures OutputAt(xs + [x], ys + [y], n)
  {
    ResponseExtends(xs, ys, x, y, n);
    if n < |xs| {
      ResponseIsCells(xs, ys, n);
    }
  }

  /** Cell 0 completes the next value of the difference equation. */
  lemma {:induction false} OutputExtends(xs: seq<int>, ys: seq<int>, x: int, y: int)
    requires IsOutput(xs, ys) && y == Scale(x * A[0]) + CellFrom(xs, ys, |xs|, 1)
    ensures IsOutput(xs + [x], ys + [y])
  {
    forall n | 0 <= n < |xs + [x]|
      ensures OutputAt(xs + [x], ys + [y], n)
    {
      assert n < |xs| ==> OutputAt(xs, ys, n);
      OutputAtExtends(xs, ys, x, y, n);
    }
  }

  lemma NewestTerm(xs: seq<int>, ys: seq<int>, x: int, y: int, k: nat)
    requires |xs| == |ys| && 1 <= k <= 5
    ensures Term(xs + [x], ys + [y], k, |xs|) == Contribution(k, x, y)
  {
  }

  /** The contributions to the output at time t, one sample later. */
  lemma {:induction false} CellFromUpdates(xs: seq<int>, ys: seq<int>, x: int, y: int, t: int, k: nat)
    requires |xs| == |ys| && 1 <= k <= 5 && t - k == |xs|
    ensures CellFrom(xs + [x], ys + [y], t, k) == Contribution(k, x, y) + CellFrom(xs, ys, t, k + 1)
  {
    NewestTerm(xs, ys, x, y, k);
    CellFromLocal(xs, ys, x, y, t, k + 1);
  }

  /** v is what cell i must hold: the contributions to the output i steps ahead. */
  predicate IsCell(xs: seq<int>, ys: seq<int>, i: nat, v: int) {
    i < 5 && v == CellFrom(xs, ys, |xs| + i, i + 1)
  }

  /** The update of one cell: the newest contribution and what the next cell held. */
  lemma {:induction false} CellUpdates(xs: seq<int>, ys: seq<int>, x: int, y: int, i: nat, later: int)
    requires |xs| == |ys| && i < 5
    requires if i == 4 then later == 0 else IsCell(xs, ys, i + 1, later)
    ensures IsCell(xs + [x], ys + [y], i, Contribution(i + 1, x, y) + later)
  {
    var t, c := |xs| + 1 + i, Contribution(i + 1, x, y);
    CellFromUpdates(xs, ys, x, y, t, i + 1);
    CellAt(xs + [x], ys + [y], i, c + later, t);
    if i < 4 {
      CellAt(xs, ys, i + 1, later, t);
    }
  }

  lemma CellAt(xs: seq<int>, ys: seq<int>, i: nat, v: int, t: int)
    requires i < 5 && t == |xs| + i
    ensures IsCell(xs, ys, i, v) <==> v == CellFrom(xs, ys, t, i + 1)
  {
  }

  lemma {:induction false} CellFromBounded(xs: seq<int>, ys: seq<int>, t: int, k: nat)
    requires IsOutput(xs, ys) && AllInt16(xs) && 1 <= k <= 6 && t - k < |xs|
    ensures -(6 - k) * 150_000 <= CellFrom(xs, ys, t, k) <= (6 - k) * 150_000
    decreases 6 - k
  {
    if k < 6 {
      OutputBounded(xs, ys, t - k);
      CellFromBounded(xs, ys, t, k + 1);
      assert 0 < A[k] <= 5022 && 0 < B[k] <= 5293;
      TermBounded(At(xs, t - k), At(ys, t - k), A[k], B[k]);
    }
  }

  lemma ProductBounded(x: int, a: int, limit: int, top: int)
    requires -limit <= x <= limit && 0 < a <= top
    ensures -limit * top <= x * a <= limit * top
  {
    assert -limit * a <= x * a <= limit * a;
    assert limit * a <= limit * top;
  }

  lemma TermBounded(x: int, y: int, a: int, b: int)
    requires IsInt16(x) && Near(y) && 0 < a <= 5022 && 0 < b <= 5293
    ensures -150_000 <= Scale(x * a) - Scale(y * b) <= 150_000
    ensures IsInt32(x * a) && IsInt32(y * b)
  {
    ProductBounded(x, a, 32768, 5022);
    ProductBounded(y, b, OUTPUT_BOUND, 5293);
  }

  // ------------------------------------------------------------------------ the code

  /** Signed 32-bit operations, which must not overflow. */
  function Add32(a: int, b: int): int
    requires IsInt32(a + b)
  {
    a + b
  }

  function Sub32(a: int, b: int): int
    requires IsInt32(a - b)
  {
    a - b
  }

  function Mul32(a: int, b: int): int
    requires IsInt32(a * b)
  {
    a * b
  }

  /** The 16-bit value nearest to v. */
  function Clamp(v: int): (r: int)
    ensures IsInt16(r) && (IsInt16(v) ==> r == v)
    ensures v > 32767 ==> r == 32767
    ensures v < -32768 ==> r == -32768
  {
    if v > 32767 then 32767 else if v < -32768 then -32768 else v
  }

  lemma ClampIsNearest(v: int, w: int)
    requires IsInt16(w)
    ensures (if v < Clamp(v) then Clamp(v) - v else v - Clamp(v)) <= (if v < w then w - v else v - w)
  {
  }

  class LowPass {
    const history: array<int>
    ghost var xs: seq<int>
    ghost var ys: seq<int>

    ghost predicate Valid()
      reads this, history
    {
      && history.Length == 5 && AllInt16(xs) && IsOutput(xs, ys)
      && forall i :: 0 <= i < 5 ==> IsCell(xs, ys, i, history[i])
    }

    constructor ()
      ensures Valid() && fresh(history) && xs == []
    {
      history := new int[5](_ => 0);
      xs, ys := [], [];
      new;
      forall i | 0 <= i < 5
        ensures IsCell([], [], i, 0)
      {
        SilentCell(i, i + 1);
      }
    }

    /** One cell; `later` is the next cell's old value. */
    method UpdateCell(i: nat, sampleIn: int, sampleOut: int, later: int)
      requires i < 5 && history.Length == 5 && IsInt16(sampleIn) && Near(sampleOut)
      requires -600_000 <= later <= 600_000
      modifies history
      ensures history[i] == Contribution(i + 1, sampleIn, sampleOut) + later
      ensures forall j :: 0 <= j < 5 && j != i ==> history[j] == old(history[j])
    {
      assert 0 < A[i + 1] <= 5022 && 0 < B[i + 1] <= 5293;
      TermBounded(sampleIn, sampleOut, A[i + 1], B[i + 1]);
      history[i] := Sub32(Scale(Mul32(sampleIn, A[i + 1])), Scale(Mul32(sampleOut, B[i + 1])));
      history[i] := Add32(history[i], later);
    }

    /** Cells 0 and 1. */
    method UpdateFront(sampleIn: int, sampleOut: int)
      requires history.Length == 5 && IsInt16(sampleIn) && Near(sampleOut)
      requires forall i :: 1 <= i < 5 ==> -600_000 <= history[i] <= 600_000
      modifies history
      ensures history[0] == Contribution(1, sampleIn, sampleOut) + old(history[1])
      ensures history[1] == Contribution(2, sampleIn, sampleOut) + old(history[2])
      ensures forall i :: 2 <= i < 5 ==> history[i] == old(history[i])
    {
      UpdateCell(0, sampleIn, sampleOut, history[1]);
      UpdateCell(1, sampleIn, sampleOut, history[2]);
    }

    /** Cells 2, 3 and 4. */
    method UpdateBack(sampleIn: int, sampleOut: int)
      requires history.Length == 5 && IsInt16(sampleIn) && Near(sampleOut)
      requires forall i :: 3 <= i < 5 ==> -600_000 <= history[i] <= 600_000
      modifies history
      ensures history[2] == Contribution(3, sampleIn, sampleOut) + old(history[3])
      ensures history[3] == Contribution(4, sampleIn, sampleOut) + old(history[4])
      ensures history[4] == Contribution(5, sampleIn, sampleOut)
      ensures history[0] == old(history[0]) && history[1] == old(history[1])
    {
      UpdateCell(2, sampleIn, sampleOut, history[3]);
      UpdateCell(3, sampleIn, sampleOut, history[4]);
      UpdateCell(4, sampleIn, sampleOut, 0);
    }

    /** The five cells, each from the next one's old value. */
    method UpdateHistory(sampleIn: int, sampleOut: int)
      requires history.Length == 5 && IsInt16(sampleIn) && Near(sampleOut)
      requires forall i :: 1 <= i < 5 ==> -600_000 <= history[i] <= 600_000
      modifies history
      ensures forall i :: 0 <= i < 5 ==>
                history[i] == Contribution(i + 1, sampleIn, sampleOut)
                              + (if i == 4 then 0 else old(history[i + 1]))
    {
      UpdateFront(sampleIn, sampleOut);
      UpdateBack(sampleIn, sampleOut);
    }

    /** The first half of a step: the output, from the newest sample and cell 0. */
    method Output(sampleIn: int) returns (sampleOut: int)
      requires Valid() && IsInt16(sampleIn)
      ensures IsOutput(xs + [sampleIn], ys + [sampleOut]) && Near(sampleOut)
    {
      CellsInRange(0);
      ProductBounded(sampleIn, A[0], 32768, 5022);
      var temp := Scale(Mul32(sampleIn, A[0]));
      sampleOut := Add32(temp, history[0]);
      OutputExtends(xs, ys, sampleIn, sampleOut);
      OutputBounded(xs + [sampleIn], ys + [sampleOut], |xs|);
    }

    /** One sample through the filter: the next value of the difference equation, without overflow. */
    method Step(sampleIn: int) returns (sampleOut: int)
      requires Valid() && IsInt16(sampleIn)
      modifies this, history
      ensures Valid() && xs == old(xs) + [sampleIn] && ys == old(ys) + [sampleOut]
      ensures Near(sampleOut)
    {
      sampleOut := Output(sampleIn);
      forall i | 1 <= i < 5
        ensures -600_000 <= history[i] <= 600_000
      {
        CellsInRange(i);
      }
      ghost var xs', ys', cells := xs + [sampleIn], ys + [sampleOut], history[..];
      UpdateHistory(sampleIn, sampleOut);
      forall i | 0 <= i < 5
        ensures IsCell(xs', ys', i, history[i])
      {
        CellUpdates(xs, ys, sampleIn, sampleOut, i, if i == 4 then 0 else cells[i + 1]);
      }
      xs, ys := xs', ys';
    }

    lemma {:induction false} CellsInRange(i: nat)
      requires Valid() && i < 5
      ensures -(5 - i) * 150_000 <= history[i] <= (5 - i) * 150_000
    {
      CellFromBounded(xs, ys, |xs| + i, i + 1);
    }

    /** One pass over the samples, in place: each becomes the clamped output for it. */
    method Pass(data: array<int>)
      requires Valid() && data != history && AllInt16(data[..])
      modifies this, history, data
      ensures Valid() && AllInt16(data[..])
      ensures xs == old(xs) + old(data[..]) && old(ys) <= ys && |ys| == |old(ys)| + data.Length
      ensures forall i :: 0 <= i < data.Length ==> data[i] == Clamp(ys[|old(ys)| + i])
    {
      ghost var input, n := data[..], |ys|;
      assert input[..0] == [];
      for i := 0 to data.Length
        invariant Valid() && xs == old(xs) + input[..i] && old(ys) <= ys && |ys| == n + i
        invariant forall k :: 0 <= k < i ==> data[k] == Clamp(ys[n + k])
        invariant forall k :: i <= k < data.Length ==> data[k] == input[k]
      {
        assert IsInt16(input[i]);
        var out := Step(data[i]);
        data[i] := Clamp(out);
        assert input[..i + 1] == input[..i] + [input[i]];
      }
      assert input[..data.Length] == input;
    }

    /** The source runs every channel over the same samples, so each filters what the last one left. */
    method PlayProcess(channels: nat, data: array<int>)
      requires Valid() && data != history && AllInt16(data[..])
      modifies this, history, data
      ensures Valid() && AllInt16(data[..]) && old(xs) <= xs && old(ys) <= ys
      ensures Passed(xs, ys, |old(xs)|, old(data[..]), channels * data.Length, data[..])
    {
      ghost var total := 0;
      for j := 0 to channels
        invariant Valid() && AllInt16(data[..]) && old(xs) <= xs && old(ys) <= ys && total == j * data.Length
        invariant Passed(xs, ys, |old(xs)|, old(data[..]), total, data[..])
      {
        ghost var xs1, ys1, data1 := xs, ys, data[..];
        Pass(data);
        PassedOn(xs1, ys1, data1, |old(xs)|, old(data[..]), total, xs, ys, data[..]);
        total := total + data.Length;
      }
    }
  }

  /**
   * `total` outputs after time `start`, in passes over |input| samples each: the first pass filtered
   * `input`, every later one the clamped outputs of the one before, and the last one left `data`.
   */
  ghost predicate Passed(xs: seq<int>, ys: seq<int>, start: nat, input: seq<int>, total: nat, data: seq<int>) {
    && |data| == |input| && |xs| == |ys| == start + total && (total == 0 || |input| <= total)
    && (forall k :: start <= k < start + total ==> xs[k] == Filtered(ys, start, input, k))
    && (forall i :: 0 <= i < |input| ==> data[i] == Filtered(ys, start, input, start + total + i))
  }

  /** The sample that the pass at time k works on. */
  ghost function Filtered(ys: seq<int>, start: nat, input: seq<int>, k: nat): int
    requires start <= k && k - |input| < |ys|
  {
    if k - start < |input| then input[k - start] else Clamp(ys[k - |input|])
  }

  lemma PassedOn(
    xs: seq<int>, ys: seq<int>, data: seq<int>, start: nat, input: seq<int>, total: nat,
    xs': seq<int>, ys': seq<int>, data': seq<int>)
    requires Passed(xs, ys, start, input, total, data)
    requires xs' == xs + data && ys <= ys' && |ys'| == |ys| + |data| && |data'| == |data|
    requires forall i :: 0 <= i < |data| ==> data'[i] == Clamp(ys'[|ys| + i])
    ensures Passed(xs', ys', start, input, total + |input|, data')
  {
    var n := start + total;
    forall k | start <= k < n + |input|
      ensures xs'[k] == Filtered(ys', start, input, k)
    {
      if k < n {
        assert xs'[k] == xs[k] == Filtered(ys, start, input, k);
      } else {
        assert xs'[k] == data[k - n] == Filtered(ys, start, input, n + (k - n));
      }
    }
  }

  lemma {:induction false} SilentCell(t: int, k: nat)
    requires 1 <= k <= 6
    ensures CellFrom([], [], t, k) == 0
    decreases 6 - k
  {
    if k < 6 {
      SilentCell(t, k + 1);
    }
  }
}
