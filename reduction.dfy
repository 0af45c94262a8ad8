/**
 * The host side of the tree reduction that sums the per-pixel squared
 * errors: ceiling division, the round loop that dispatches the Reduce
 * kernel, and the two buffers that the rounds use alternately.
 */
module Reduction {
  import opened Config
  import opened Grid

  // ---------------------------------------------------------------------------
  // Ceiling division
  // ---------------------------------------------------------------------------

  /** The least integer not below x. */
  function Ceil(x: real): (c: int)
    ensures c as real - 1.0 < x <= c as real
  {
    if x.Floor as real == x then x.Floor else x.Floor + 1
  }

  lemma ScaleBounds(a: int, b: int, c: int)
    requires b > 0
    requires c as real - 1.0 < a as real / b as real <= c as real
    ensures (c - 1) * b < a <= c * b
  {
    var x, br, cr := a as real / b as real, b as real, c as real;
    assert x * br == a as real;
    RealMulMonotone(x, cr, br);
    RealMulMonotoneStrict(cr - 1.0, x, br);
    assert (c * b) as real == cr * br;
    assert ((c - 1) * b) as real == (cr - 1.0) * br;
  }

  lemma RealMulMonotone(x: real, y: real, z: real)
    requires x <= y && z > 0.0
    ensures x * z <= y * z
  {
    assert y * z - x * z == (y - x) * z;
  }

  lemma RealMulMonotoneStrict(x: real, y: real, z: real)
    requires x < y && z > 0.0
    ensures x * z < y * z
  {
    assert y * z - x * z == (y - x) * z;
  }

  /** Euclidean division is pinned down by its quotient bounds. */
  lemma DivIsUnique(x: int, b: int, q: int)
    requires b > 0 && q * b <= x < (q + 1) * b
    ensures x / b == q
  {
    var t, r := x / b, x % b;
    assert x == t * b + r && 0 <= r < b;
    if t < q {
      MulMonotone(t, q - 1, b);
    } else if t > q {
      MulMonotone(q + 1, t, b);
    }
  }

  /**
   * round_up_div: the quotient a/b taken in floating point and rounded up.
   * For the sizes the host uses the floating-point quotient is exact, so
   * the model takes it over the reals. The result is the least q with
   * q*b >= a, which is also the integer expression (a + b - 1) / b.
   */
  function RoundUpDiv(a: nat, b: nat): (q: nat)
    requires b > 0
    ensures a <= q * b
    ensures (q - 1) * b < a
    ensures q == (a + b - 1) / b
  {
    var c := Ceil(a as real / b as real);
    ScaleBounds(a, b, c);
    assert (c - 1) * b <= a - 1;
    DivIsUnique(a + b - 1, b, c);
    c
  }

  /** Every q that covers a with groups of b is at least RoundUpDiv(a, b). */
  lemma RoundUpDivIsLeast(a: nat, b: nat, q: int)
    requires b > 0 && a <= q * b
    ensures RoundUpDiv(a, b) <= q
  {
    var c := RoundUpDiv(a, b);
    if c > q {
      MulMonotone(q, c - 1, b);
    }
  }

  /** One round strictly shrinks any size above one. */
  lemma RoundUpDivShrinks(a: nat, b: nat)
    requires a > 1 && b > 1
    ensures 1 <= RoundUpDiv(a, b) < a
  {
    var q := RoundUpDiv(a, b);
    assert q >= 1;
    MulMonotone(2, b, q - 1);
    assert (q - 1) * 2 < a;
  }

  // ---------------------------------------------------------------------------
  // The round schedule
  // ---------------------------------------------------------------------------

  /**
   * The value of `size` at the start of each iteration of the host's
   * reduction loop, when the loop starts from n.
   */
  function Schedule(n: int): (sizes: seq<nat>)
    decreases if n < 0 then 0 else n
  {
    if n <= 1 then []
    else
      RoundUpDivShrinks(n, GroupSize);
      [n] + Schedule(RoundUpDiv(n, GroupSize))
  }

  /** A size of at most one runs no round at all. */
  lemma NoRoundsForTrivialSizes(n: int)
    requires n <= 1
    ensures Schedule(n) == []
  {
  }

  /**
   * The sizes of consecutive rounds: each is above one, the next is the
   * previous one divided by the group size and rounded up, and after the
   * last round exactly one value is left.
   */
  lemma {:induction false} ScheduleShape(n: int)
    ensures forall k :: 0 <= k < |Schedule(n)| ==> Schedule(n)[k] > 1
    ensures forall k :: 0 <= k < |Schedule(n)| - 1 ==>
      Schedule(n)[k + 1] == RoundUpDiv(Schedule(n)[k], GroupSize) < Schedule(n)[k]
    ensures n >= 1 && |Schedule(n)| > 0 ==>
      RoundUpDiv(Schedule(n)[|Schedule(n)| - 1], GroupSize) == 1
    ensures |Schedule(n)| > 0 ==> Schedule(n)[0] == n
    decreases if n < 0 then 0 else n
  {
    if n > 1 {
      RoundUpDivShrinks(n, GroupSize);
      var m := RoundUpDiv(n, GroupSize);
      ScheduleShape(m);
      var s := Schedule(n);
      assert s == [n] + Schedule(m);
      if |Schedule(m)| == 0 {
        assert m <= 1;
      }
    }
  }

  function Pow(base: nat, e: nat): (p: nat)
  {
    if e == 0 then 1 else base * Pow(base, e - 1)
  }

  /**
   * The number of rounds is the ceiling of the base-128 logarithm of n:
   * 128^(rounds - 1) < n <= 128^rounds.
   */
  lemma {:induction false} RoundCountIsCeilLog(n: int)
    requires n >= 1
    ensures n <= Pow(GroupSize, |Schedule(n)|)
    ensures |Schedule(n)| > 0 ==> Pow(GroupSize, |Schedule(n)| - 1) < n
    decreases n
  {
    if n > 1 {
      RoundUpDivShrinks(n, GroupSize);
      var q := RoundUpDiv(n, GroupSize);
      RoundCountIsCeilLog(q);
      var r := |Schedule(q)|;
      assert |Schedule(n)| == r + 1;
      assert Pow(GroupSize, r + 1) == GroupSize * Pow(GroupSize, r);
      assert n <= q * GroupSize <= Pow(GroupSize, r) * GroupSize;
      if r > 0 {
        assert Pow(GroupSize, r) == GroupSize * Pow(GroupSize, r - 1);
        assert Pow(GroupSize, r - 1) <= q - 1;
        assert Pow(GroupSize, r) <= (q - 1) * GroupSize;
      }
    }
  }

  // ---------------------------------------------------------------------------
  // Kernels, buffers and dispatches
  // ---------------------------------------------------------------------------

  /** The two device buffers the rounds alternate between. */
  datatype BufferId = IndividualMse | ResultBuffer

  /** The two kernel objects, both built from the Reduce kernel. */
  datatype Kernel = Mse1 | Mse2

  /** The buffer bound as argument 0 of a kernel (its input). */
  function Source(k: Kernel): BufferId
  {
    match k
    case Mse1 => IndividualMse
    case Mse2 => ResultBuffer
  }

  /** The buffer bound as argument 1 of a kernel (its output). */
  function Destination(k: Kernel): BufferId
  {
    match k
    case Mse1 => ResultBuffer
    case Mse2 => IndividualMse
  }

  /** The kernel chosen by round parity. */
  function KernelFor(round: nat): Kernel
  {
    if round % 2 == 0 then Mse1 else Mse2
  }

  /** The buffer the host reads the result from after `rounds` rounds. */
  function BufferReadAfter(rounds: nat): BufferId
  {
    if rounds % 2 == 0 then IndividualMse else ResultBuffer
  }

  /** One kernel launch: which kernel, its global size and its local size. */
  datatype Dispatch = Dispatch(kernel: Kernel, globalSize: nat, localSize: nat)

  /** The launch the host issues in round `round` when `size` values are left. */
  function DispatchFor(round: nat, size: nat): Dispatch
  {
    Dispatch(KernelFor(round), RoundUpDiv(size, GroupSize) * GroupSize, GroupSize)
  }

  /** The launches for a sequence of round sizes, in order. */
  function DispatchesFor(sizes: seq<nat>): (ds: seq<Dispatch>)
  {
    seq(|sizes|, k requires 0 <= k < |sizes| => DispatchFor(k, sizes[k]))
  }

  /**
   * Every launch covers its round with whole work-groups: the global size
   * is a multiple of the group size, at least the number of live values
   * and less than one group beyond it.
   */
  lemma DispatchCoversRound(round: nat, size: nat)
    ensures DispatchFor(round, size).localSize == GroupSize
    ensures DispatchFor(round, size).globalSize % GroupSize == 0
    ensures size <= DispatchFor(round, size).globalSize < size + GroupSize
  {
    var q := RoundUpDiv(size, GroupSize);
    assert (q * GroupSize) % GroupSize == 0;
  }

  /**
   * Over the whole schedule for n: launch k uses the kernel of round k's
   * parity and covers that round's live values with whole work-groups.
   */
  lemma ScheduledDispatchesCover(n: int)
    ensures |DispatchesFor(Schedule(n))| == |Schedule(n)|
    ensures forall k :: 0 <= k < |Schedule(n)| ==>
      var launch := DispatchesFor(Schedule(n))[k];
      launch.kernel == KernelFor(k) && launch.localSize == GroupSize &&
      launch.globalSize % GroupSize == 0 &&
      Schedule(n)[k] <= launch.globalSize < Schedule(n)[k] + GroupSize
  {
    forall k | 0 <= k < |Schedule(n)| {
      DispatchCoversRound(k, Schedule(n)[k]);
    }
  }

  /**
   * The ping-pong protocol: the first round reads the squared errors,
   * every later round reads what the round before wrote, no round reads
   * the buffer it writes, and the buffer read after the loop is the one
   * the last round wrote (the untouched input when no round ran).
   */
  lemma PingPong(rounds: nat)
    ensures Source(KernelFor(0)) == IndividualMse
    ensures forall k :: 0 <= k < rounds ==> Source(KernelFor(k)) != Destination(KernelFor(k))
    ensures forall k :: 0 < k < rounds ==> Source(KernelFor(k)) == Destination(KernelFor(k - 1))
    ensures rounds == 0 ==> BufferReadAfter(rounds) == IndividualMse
    ensures rounds > 0 ==> BufferReadAfter(rounds) == Destination(KernelFor(rounds - 1))
  {
  }

  // ---------------------------------------------------------------------------
  // Reduction values under the assumed kernel semantics
  // ---------------------------------------------------------------------------

  function Sum(s: seq<int>): int
  {
    if s == [] then 0 else s[0] + Sum(s[1..])
  }

  lemma {:induction false} SumConcat(a: seq<int>, b: seq<int>)
    ensures Sum(a + b) == Sum(a) + Sum(b)
  {
    if a == [] {
      assert a + b == b;
    } else {
      assert (a + b)[0] == a[0];
      assert (a + b)[1..] == a[1..] + b;
      SumConcat(a[1..], b);
    }
  }

  /**
   * ASSUMPTION, not a statement about code: the Reduce kernel's body is
   * not part of this model. This function is what one round is taken to
   * compute: each work-group of GroupSize consecutive live values becomes
   * its sum, a last partial group summing only its live values (the same
   * as zero padding). The host passes no size to the kernel, so whether
   * the kernel really treats the slots beyond the live values as zero is
   * not visible from the host.
   */
  function AssumedGroupSums(s: seq<int>): (r: seq<int>)
    decreases |s|
  {
    if s == [] then []
    else if |s| <= GroupSize then [Sum(s)]
    else [Sum(s[..GroupSize])] + AssumedGroupSums(s[GroupSize..])
  }

  /** One assumed round keeps the total and leaves one value per work-group. */
  lemma {:induction false} GroupSumsKeepTotal(s: seq<int>)
    ensures |AssumedGroupSums(s)| == RoundUpDiv(|s|, GroupSize)
    ensures Sum(AssumedGroupSums(s)) == Sum(s)
    decreases |s|
  {
    if s == [] {
    } else if |s| <= GroupSize {
      assert RoundUpDiv(|s|, GroupSize) == 1;
      assert Sum([Sum(s)]) == Sum(s) + Sum([]);
    } else {
      var rest := s[GroupSize..];
      GroupSumsKeepTotal(rest);
      assert s == s[..GroupSize] + rest;
      SumConcat(s[..GroupSize], rest);
      SumConcat([Sum(s[..GroupSize])], AssumedGroupSums(rest));
      assert RoundUpDiv(|s|, GroupSize) == RoundUpDiv(|rest|, GroupSize) + 1 by {
        var q := RoundUpDiv(|rest|, GroupSize);
        DivIsUnique(|s| + GroupSize - 1, GroupSize, q + 1);
      }
    }
  }

  lemma DispatchesSnoc(sizes: seq<nat>, size: nat)
    ensures DispatchesFor(sizes + [size]) == DispatchesFor(sizes) + [DispatchFor(|sizes|, size)]
  {
    var l, r := DispatchesFor(sizes + [size]), DispatchesFor(sizes) + [DispatchFor(|sizes|, size)];
    assert |l| == |r|;
    forall k | 0 <= k < |l| ensures l[k] == r[k] {
      if k < |sizes| {
        assert (sizes + [size])[k] == sizes[k];
      }
    }
  }

  /**
   * One launch of the Reduce kernel, under the assumed semantics: the
   * partial sums of the `size` live values of `src` overwrite the front
   * of `dst`; the rest of `dst` keeps what it held.
   */
  function LaunchRound(src: seq<int>, dst: seq<int>, size: nat): (r: seq<int>)
    requires 1 <= size <= |src| && size <= |dst|
    ensures |r| == |dst|
    ensures 1 <= RoundUpDiv(size, GroupSize) <= size
    ensures Sum(r[..RoundUpDiv(size, GroupSize)]) == Sum(src[..size])
    ensures r[RoundUpDiv(size, GroupSize)..] == dst[RoundUpDiv(size, GroupSize)..]
  {
    var groups := RoundUpDiv(size, GroupSize);
    GroupSumsKeepTotal(src[..size]);
    var r := AssumedGroupSums(src[..size]) + dst[groups..];
    assert r[..groups] == AssumedGroupSums(src[..size]);
    r
  }

  /**
   * The launches of the default schedule address more slots than there
   * are live values: 12 beyond the end of individualMSE in round 0, 106 in
   * round 1 and 33 in round 2. The kernel receives no size, so nothing on
   * the host keeps those work-items from reading the slots.
   */
  lemma DefaultScheduleOverreach()
    ensures DispatchFor(0, ImageWidth * ImageHeight).globalSize == ImageWidth * ImageHeight + 12
    ensures DispatchFor(1, 12054).globalSize == 12054 + 106
    ensures DispatchFor(2, 95).globalSize == 95 + 33
  {
    assert RoundUpDiv(1542900, GroupSize) == 12054;
    assert RoundUpDiv(12054, GroupSize) == 95;
    assert RoundUpDiv(95, GroupSize) == 1;
  }

  /**
   * What those extra work-items find in the model's buffers for the default
   * image: in round 1 the slots 12054 .. 12159 of result_buffer still hold
   * its uninitialised content, and in round 2 the slots 95 .. 127 of
   * individualMSE still hold the squared errors of pixels 95 .. 127. Only
   * the assumed zero padding keeps them out of the sums.
   */
  lemma DefaultScheduleStaleTails(input: seq<int>, scratch: seq<int>)
    requires |input| == ImageWidth * ImageHeight && |scratch| == |input|
    ensures var afterRound0 := LaunchRound(input, scratch, ImageWidth * ImageHeight);
      afterRound0[12054..12160] == scratch[12054..12160] &&
      LaunchRound(afterRound0, input, 12054)[95..128] == input[95..128]
  {
    assert RoundUpDiv(1542900, GroupSize) == 12054;
    assert RoundUpDiv(12054, GroupSize) == 95;
    var r1 := LaunchRound(input, scratch, ImageWidth * ImageHeight);
    assert r1[12054..] == scratch[12054..];
    assert r1[12054..12160] == r1[12054..][..106];
    assert scratch[12054..12160] == scratch[12054..][..106];
    var r2 := LaunchRound(r1, input, 12054);
    assert r2[95..] == input[95..];
    assert r2[95..128] == r2[95..][..33];
    assert input[95..128] == input[95..][..33];
  }

  /** The buffer holding the live values after `round` rounds. */
  function Live(round: nat, individualMse: seq<int>, resultBuffer: seq<int>): seq<int>
  {
    if round % 2 == 0 then individualMse else resultBuffer
  }

  /**
   * The body of the host's loop: the launch of round `round` over `size`
   * live values. The kernel of the round's parity reads the live values
   * and writes their partial sums to the front of the other buffer.
   */
  method RunRound(round: nat, size: nat, individualMse: seq<int>, resultBuffer: seq<int>)
      returns (dispatch: Dispatch, nextMse: seq<int>, nextResult: seq<int>)
    requires 1 <= size <= |individualMse| && |resultBuffer| == |individualMse|
    ensures dispatch == DispatchFor(round, size)
    ensures |nextMse| == |individualMse| && |nextResult| == |individualMse|
    ensures Live(round, nextMse, nextResult) == Live(round, individualMse, resultBuffer)
    ensures Live(round + 1, nextMse, nextResult)
         == LaunchRound(Live(round, individualMse, resultBuffer), Live(round + 1, individualMse, resultBuffer), size)
    ensures Sum(Live(round + 1, nextMse, nextResult)[..RoundUpDiv(size, GroupSize)])
         == Sum(Live(round, individualMse, resultBuffer)[..size])
  {
    var groups := RoundUpDiv(size, GroupSize);
    var t1 := groups * GroupSize;
    dispatch := Dispatch(KernelFor(round), t1, GroupSize);
    nextMse, nextResult := individualMse, resultBuffer;
    if round % 2 == 0 {
      nextResult := LaunchRound(individualMse, resultBuffer, size);
    } else {
      nextMse := LaunchRound(resultBuffer, individualMse, size);
    }
  }

  /** The bookkeeping of one loop iteration: schedule and dispatch list grow by one round. */
  lemma ScheduleStep(n: int, done: seq<nat>, size: nat)
    requires size > 1
    requires Schedule(n) == done + Schedule(size)
    ensures Schedule(n) == (done + [size]) + Schedule(RoundUpDiv(size, GroupSize))
    ensures DispatchesFor(done + [size]) == DispatchesFor(done) + [DispatchFor(|done|, size)]
  {
    assert Schedule(size) == [size] + Schedule(RoundUpDiv(size, GroupSize));
    DispatchesSnoc(done, size);
  }

  /**
   * The host's reduction loop. `input` is the squared-error buffer
   * (individualMSE) as the pointMSE kernel left it; `scratch` is the
   * uninitialised content of result_buffer, allocated with the same size.
   * The loop shrinks `size` by ceiling division each round, launches the
   * kernel chosen by round parity over whole work-groups, and afterwards
   * reads the first value of the buffer chosen by the parity of `round`.
   * Under the assumed kernel semantics that value is the total of the
   * squared errors; the host uses it as the MSE directly, with no division
   * by the pixel count.
   */
  method Reduce(input: seq<int>, scratch: seq<int>)
      returns (dispatches: seq<Dispatch>, rounds: nat, read: BufferId, mse: int)
    requires |input| >= 1
    requires |scratch| == |input|
    ensures dispatches == DispatchesFor(Schedule(|input|))
    ensures rounds == |Schedule(|input|)|
    ensures read == BufferReadAfter(rounds)
    ensures rounds > 0 ==> read == Destination(dispatches[rounds - 1].kernel)
    ensures mse == Sum(input)
  {
    var individualMse, resultBuffer := input, scratch;
    var round: nat := 0;
    var size: nat := |input|;
    ghost var done: seq<nat> := [];
    dispatches := [];
    assert individualMse[..size] == input;
    while size > 1
      invariant 1 <= size <= |input|
      invariant |individualMse| == |input| && |resultBuffer| == |input|
      invariant |done| == round
      invariant Schedule(|input|) == done + Schedule(size)
      invariant dispatches == DispatchesFor(done)
      invariant Sum(Live(round, individualMse, resultBuffer)[..size]) == Sum(input)
      decreases size
    {
      var groups := RoundUpDiv(size, GroupSize);
      ScheduleStep(|input|, done, size);
      var dispatch;
      dispatch, individualMse, resultBuffer := RunRound(round, size, individualMse, resultBuffer);
      dispatches := dispatches + [dispatch];
      done := done + [size];
      size, round := groups, round + 1;
    }
    assert Schedule(size) == [];
    PingPong(round);
    rounds := round;
    if round % 2 == 0 {
      read, mse := IndividualMse, individualMse[0];
    } else {
      read, mse := ResultBuffer, resultBuffer[0];
    }
    assert Live(round, individualMse, resultBuffer)[..1] == [mse];
  }

  /**
   * With the host's image size the loop runs three rounds, over
   * 1542900, 12054 and 95 values, and reads result_buffer afterwards.
   */
  lemma DefaultImageSchedule()
    ensures Schedule(ImageWidth * ImageHeight) == [1542900, 12054, 95]
    ensures BufferReadAfter(|Schedule(ImageWidth * ImageHeight)|) == ResultBuffer
  {
    assert RoundUpDiv(1542900, GroupSize) == 12054;
    assert RoundUpDiv(12054, GroupSize) == 95;
    assert RoundUpDiv(95, GroupSize) == 1;
    assert Schedule(1) == [];
    assert Schedule(95) == [95];
    assert Schedule(12054) == [12054, 95];
  }
}
