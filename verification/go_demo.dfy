/** The pure demo functions the Go side exports across the bridge (go/main.go):
    integer addition, a greeting, a factorial and the total that `TestGoroutines`
    aggregates. Go's `int` is 64 bits wide on every target of the build tags, so
    every `+` and `*` below wraps around modulo 2^64, as Go defines it to. */
module GoDemo {
  import opened Int64

  // ---------------------------------------------------------------- Simple

  /** `Simple(a, b)`: Go's `a + b` on 64-bit ints. */
  function Simple(a: Int64, b: Int64): (r: Int64)
    ensures Congruent(r, a + b)
    ensures MinInt64 <= a + b <= MaxInt64 ==> r == a + b
  {
    Wrap(a + b)
  }

  /** Addition as the bridge exposes it is commutative. */
  lemma SimpleCommutes(a: Int64, b: Int64)
    ensures Simple(a, b) == Simple(b, a)
  {
  }

  // ----------------------------------------------------------------- Hello

  const Greeting: string := "Hello, "
  const Signature: string := " from Go!"

  /** `Hello(name)`: the greeting wrapped around the caller's name. */
  function Hello(name: string): (r: string)
    ensures |r| == |name| + 16
    ensures r[..|Greeting|] == Greeting
    ensures r[|Greeting|..|Greeting| + |name|] == name
    ensures r[|r| - |Signature|..] == Signature
  {
    Greeting + name + Signature
  }

  /** Different names give different greetings: the name can be read back
      from between the fixed prefix and suffix. */
  lemma HelloInjective(a: string, b: string)
    requires Hello(a) == Hello(b)
    ensures a == b
  {
  }

  // ------------------------------------------------------------- Factorial

  /** The factorial the function is documented to compute: n! for n >= 1,
      and 1 for every n <= 0 (the source's base case). Never smaller than 1. */
  function Factorial(n: int): (r: int)
    ensures r >= 1
    decreases if n <= 0 then 0 else n
  {
    if n <= 0 then 1
    else
      var f := Factorial(n - 1);
      assert n * f >= f;
      n * f
  }

  /** `CalculateFactorial(n)` as written: the same recursion in Go's 64-bit
      arithmetic, where each product wraps around. It computes n! reduced
      modulo 2^64: the wrap-around of each intermediate product loses nothing
      the final reduction keeps. */
  function CalculateFactorial(n: Int64): (r: Int64)
    ensures r == Wrap(Factorial(n))
    decreases if n <= 0 then 0 else n
  {
    if n <= 0 then 1
    else
      WrapMul(n, Factorial(n - 1));
      Wrap(n * CalculateFactorial(n - 1))
  }

  /** The base case: every non-positive argument gives 1. */
  lemma CalculateFactorialBase(n: Int64)
    requires n <= 0
    ensures CalculateFactorial(n) == 1 && Factorial(n) == 1
  {
  }

  /** The recursion step, stated on the exact factorial. */
  lemma FactorialStep(n: int)
    requires n > 0
    ensures Factorial(n) == n * Factorial(n - 1)
  {
  }

  /** n! grows with n. */
  lemma {:induction false} FactorialMonotone(m: int, n: int)
    requires m <= n
    ensures Factorial(m) <= Factorial(n)
    decreases n - m
  {
    if m < n {
      FactorialMonotone(m, n - 1);
      if n > 0 {
        assert Factorial(n) == n * Factorial(n - 1);
      }
    }
  }

  const Factorial20: int := 2432902008176640000

  lemma Factorial20Value()
    ensures Factorial(20) == Factorial20
  {
    assert Factorial(1) == 1;
    assert Factorial(2) == 2;
    assert Factorial(3) == 6;
    assert Factorial(4) == 24;
    assert Factorial(5) == 120;
    assert Factorial(6) == 720;
    assert Factorial(7) == 5040;
    assert Factorial(8) == 40320;
    assert Factorial(9) == 362880;
    assert Factorial(10) == 3628800;
    assert Factorial(11) == 39916800;
    assert Factorial(12) == 479001600;
    assert Factorial(13) == 6227020800;
    assert Factorial(14) == 87178291200;
    assert Factorial(15) == 1307674368000;
    assert Factorial(16) == 20922789888000;
    assert Factorial(17) == 355687428096000;
    assert Factorial(18) == 6402373705728000;
    assert Factorial(19) == 121645100408832000;
  }

  /** Up to 20 the written function is exact, so it is at least 1 there. */
  lemma CalculateFactorialExactUpTo20(n: Int64)
    requires n <= 20
    ensures CalculateFactorial(n) == Factorial(n)
    ensures CalculateFactorial(n) >= 1
  {
    FactorialMonotone(n, 20);
    Factorial20Value();
  }

  /** At 21 the 64-bit product overflows: the written function returns a
      negative number where 21! is expected. */
  lemma CalculateFactorial21IsNegative()
    ensures CalculateFactorial(21) == -4249290049419214848
    ensures CalculateFactorial(21) < 1 <= Factorial(21)
  {
    CalculateFactorialExactUpTo20(20);
    Factorial20Value();
    assert CalculateFactorial(21) == Wrap(21 * Factorial20);
    Wrap21Factorial();
  }

  lemma Wrap21Factorial()
    ensures Wrap(21 * Factorial20) == -4249290049419214848
  {
    assert 21 * Factorial20 == 51090942171709440000;
    assert 51090942171709440000 == -4249290049419214848 + 3 * Modulus;
    MultipleIsCongruentToZero(3);
    CongruentWrapEqual(51090942171709440000, -4249290049419214848);
  }

  // -------------------------------------------------------- TestGoroutines

  /** What worker `id` computes with the given workload, exactly:
      the sum of j * id over 0 <= j < workload. */
  function WorkerSum(id: int, workload: int): int
    decreases if workload <= 0 then 0 else workload
  {
    if workload <= 0 then 0 else WorkerSum(id, workload - 1) + (workload - 1) * id
  }

  /** The aggregate `TestGoroutines` is meant to return, exactly:
      the sum of WorkerSum(id, workload) over 1 <= id <= count. */
  function GoroutineTotal(count: int, workload: int): int
    decreases if count <= 0 then 0 else count
  {
    if count <= 0 then 0 else GoroutineTotal(count - 1, workload) + WorkerSum(count, workload)
  }

  /** Sum of the worker results for a sequence of ids, in that order. */
  function SumOfWorkers(ids: seq<int>, workload: int): int
  {
    if |ids| == 0 then 0 else WorkerSum(ids[0], workload) + SumOfWorkers(ids[1..], workload)
  }

  /** The worker ids the source launches: 1, 2, ..., count (none when count <= 0). */
  function WorkerIds(count: int): (ids: seq<int>)
    ensures |ids| == (if count <= 0 then 0 else count)
    ensures forall k :: 0 <= k < |ids| ==> ids[k] == k + 1
  {
    seq(if count <= 0 then 0 else count, k => k + 1)
  }

  /** Results leave the channel in an order the scheduler chooses: each
      launched worker's result arrives exactly once. */
  predicate IsArrivalOrder(arrival: seq<int>, count: int) {
    multiset(arrival) == multiset(WorkerIds(count))
  }

  lemma {:induction false} SumOfWorkersAppend(s: seq<int>, t: seq<int>, workload: int)
    ensures SumOfWorkers(s + t, workload) == SumOfWorkers(s, workload) + SumOfWorkers(t, workload)
    decreases |s|
  {
    if |s| > 0 {
      assert (s + t)[1..] == s[1..] + t;
      SumOfWorkersAppend(s[1..], t, workload);
    } else {
      assert s + t == t;
    }
  }

  /** The aggregate does not depend on the order in which results arrive. */
  lemma {:induction false} SumOfWorkersPermutation(a: seq<int>, b: seq<int>, workload: int)
    requires multiset(a) == multiset(b)
    ensures SumOfWorkers(a, workload) == SumOfWorkers(b, workload)
    decreases |a|
  {
    if |a| == 0 {
      assert |multiset(b)| == 0;
    } else {
      var x := a[0];
      assert x in multiset(b);
      var i :| 0 <= i < |b| && b[i] == x;
      var rest := b[..i] + b[i + 1..];
      assert b == b[..i] + [x] + b[i + 1..];
      assert a == [x] + a[1..];
      assert multiset(a) == multiset([x]) + multiset(a[1..]);
      assert multiset(b) == multiset(b[..i]) + multiset([x]) + multiset(b[i + 1..]);
      assert multiset(rest) == multiset(b[..i]) + multiset(b[i + 1..]);
      assert multiset(a[1..]) == multiset(a) - multiset{x};
      assert multiset(rest) == multiset(b) - multiset{x};
      SumOfWorkersPermutation(a[1..], rest, workload);
      SumOfWorkersAppend(b[..i] + [x], b[i + 1..], workload);
      SumOfWorkersAppend(b[..i], [x], workload);
      SumOfWorkersAppend(b[..i], b[i + 1..], workload);
      assert SumOfWorkers([x], workload) == WorkerSum(x, workload);
    }
  }

  /** Launch order 1..count gives exactly the intended aggregate. */
  lemma {:induction false} SumOfWorkerIds(count: int, workload: int)
    ensures SumOfWorkers(WorkerIds(count), workload) == GoroutineTotal(count, workload)
    decreases if count <= 0 then 0 else count
  {
    if count > 0 {
      assert WorkerIds(count) == WorkerIds(count - 1) + [count];
      SumOfWorkersAppend(WorkerIds(count - 1), [count], workload);
      SumOfWorkerIds(count - 1, workload);
    } else {
      assert WorkerIds(count) == [];
    }
  }

  /** Twice a worker's sum is id * workload * (workload - 1). */
  lemma {:induction false} WorkerSumClosedForm(id: int, workload: int)
    requires workload >= 0
    ensures 2 * WorkerSum(id, workload) == id * (workload * (workload - 1))
    decreases workload
  {
    if workload > 0 {
      WorkerSumClosedForm(id, workload - 1);
      var w := workload - 1;
      assert 2 * WorkerSum(id, workload) == id * (w * (w - 1)) + 2 * (w * id);
      assert id * (w * (w - 1)) + 2 * (w * id) == id * (w * (w - 1) + 2 * w);
      assert w * (w - 1) + 2 * w == workload * w;
    }
  }

  /** The aggregate in closed form:
      4 * total == count * (count + 1) * workload * (workload - 1). */
  lemma {:induction false} GoroutineTotalClosedForm(count: int, workload: int)
    requires count >= 0 && workload >= 0
    ensures 4 * GoroutineTotal(count, workload) == (count * (count + 1)) * (workload * (workload - 1))
    decreases count
  {
    if count > 0 {
      GoroutineTotalClosedForm(count - 1, workload);
      WorkerSumClosedForm(count, workload);
      var p := workload * (workload - 1);
      var t := GoroutineTotal(count - 1, workload);
      var w := WorkerSum(count, workload);
      assert GoroutineTotal(count, workload) == t + w;
      TriangleStep(count, p, t, w);
    }
  }

  /** The arithmetic of one induction step of the closed form. */
  lemma TriangleStep(count: int, p: int, t: int, w: int)
    requires 4 * t == ((count - 1) * count) * p
    requires 2 * w == count * p
    ensures 4 * (t + w) == (count * (count + 1)) * p
  {
    var c := count - 1;
    calc {
      4 * (t + w);
      (c * count) * p + 2 * (count * p);
      (c * count + 2 * count) * p;
      { assert c * count + 2 * count == count * (count + 1); }
      (count * (count + 1)) * p;
    }
  }

  /** No workers, or a workload of at most one step (j = 0 only), gives 0. */
  lemma {:induction false} GoroutineTotalZero(count: int, workload: int)
    requires count <= 0 || workload <= 1
    ensures GoroutineTotal(count, workload) == 0
    decreases if count <= 0 then 0 else count
  {
    if count > 0 {
      GoroutineTotalZero(count - 1, workload);
      if workload == 1 {
        assert WorkerSum(count, 1) == WorkerSum(count, 0) + 0;
      }
    }
  }

  /** One loop iteration of a worker, in 64-bit arithmetic. */
  lemma WorkerStep(id: int, j: int)
    requires j >= 0
    ensures Wrap(Wrap(WorkerSum(id, j)) + Wrap(j * id)) == Wrap(WorkerSum(id, j + 1))
  {
    WrapAdd(WorkerSum(id, j), j * id);
  }

  /** One worker goroutine: `sum += j * id` for j in [0, workload), in 64-bit arithmetic. */
  method Worker(id: Int64, workload: Int64) returns (sum: Int64)
    ensures sum == Wrap(WorkerSum(id, workload))
  {
    sum := 0;
    var j: Int64 := 0;
    while j < workload
      invariant 0 <= j <= (if workload < 0 then 0 else workload)
      invariant sum == Wrap(WorkerSum(id, j))
    {
      WorkerStep(id, j);
      sum := Wrap(sum + Wrap(j * id));
      j := j + 1;
    }
  }

  /** How a call into Go ends: it returns a value, or it panics. */
  datatype Outcome = Returned(value: Int64) | Panicked

  /** `TestGoroutines(count, workload)` with the concurrency made sequential.
      A negative `count` makes `make(chan int, count)` panic before any worker
      starts. Otherwise every worker runs, and the collecting loop adds the
      results in the order `arrival` they leave the channel. Whatever that
      order, the total is the intended aggregate reduced to 64 bits, and 0
      when there are no workers or no work. */
  method TestGoroutines(count: Int64, workload: Int64, arrival: seq<Int64>) returns (outcome: Outcome)
    requires IsArrivalOrder(arrival, count)
    ensures outcome.Panicked? <==> count < 0
    ensures count >= 0 ==> outcome == Returned(Wrap(GoroutineTotal(count, workload)))
    ensures count == 0 || (count >= 0 && workload <= 1) ==> outcome == Returned(0)
  {
    if count < 0 {
      return Panicked;
    }
    var total: Int64 := 0;
    var k := 0;
    while k < |arrival|
      invariant 0 <= k <= |arrival|
      invariant total == Wrap(SumOfWorkers(arrival[..k], workload))
    {
      var result := Worker(arrival[k], workload);
      SumOfWorkersAppend(arrival[..k], [arrival[k]], workload);
      assert arrival[..k + 1] == arrival[..k] + [arrival[k]];
      WrapAdd(SumOfWorkers(arrival[..k], workload), WorkerSum(arrival[k], workload));
      total := Wrap(total + result);
      k := k + 1;
    }
    assert arrival[..k] == arrival;
    SumOfWorkersPermutation(arrival, WorkerIds(count), workload);
    SumOfWorkerIds(count, workload);
    if count == 0 || workload <= 1 {
      GoroutineTotalZero(count, workload);
    }
    outcome := Returned(total);
  }
}
