/** The helpers of lab3/main.py without their logging and printing: the
    four-operation calculator, the sliding-window rate limiter, and the
    memoising cache with the Fibonacci function it wraps. The limiter's
    clock reading is a parameter and its lock is dropped (calls are
    sequential). */
module Helpers {

  // ---------------------------------------------------------------------
  // calculate (lines 38-49)

  datatype CalcError = UnsupportedOperation | DivisionByZero

  datatype Result<T> = Success(value: T) | Failure(error: CalcError)

  const Operations: set<string> := {"+", "-", "*", "/"}

  /** `calculate`: the `match` on the operation string; any other string
      raises `ValueError`, and division by zero raises as Python's `/`
      does. */
  function Calculate(a: real, b: real, operation: string): (r: Result<real>)
    ensures r.Failure? <==> operation !in Operations || (operation == "/" && b == 0.0)
    ensures r == Failure(UnsupportedOperation) <==> operation !in Operations
    ensures operation == "+" ==> r.value - b == a
    ensures operation == "-" ==> r.value + b == a
  {
    match operation
    case "+" => Success(a + b)
    case "-" => Success(a - b)
    case "*" => Success(a * b)
    case "/" => if b == 0.0 then Failure(DivisionByZero) else Success(a / b)
    case _ => Failure(UnsupportedOperation)
  }

  /** The four supported operations compute the sum, difference, product
      and quotient of the operands. */
  lemma CalculateDispatch(a: real, b: real)
    ensures Calculate(a, b, "+") == Success(a + b)
    ensures Calculate(a, b, "-") == Success(a - b)
    ensures Calculate(a, b, "*") == Success(a * b)
    ensures b != 0.0 ==> Calculate(a, b, "/") == Success(a / b)
  {
    var p := a * b;
    assert Calculate(a, b, "*") == Success(p);
  }

  /** Subtraction undoes addition through `calculate` itself. */
  lemma CalculateAddRoundTrip(a: real, b: real)
    ensures Calculate(Calculate(a, b, "+").value, b, "-") == Success(a)
    ensures Calculate(Calculate(a, b, "-").value, b, "+") == Success(a)
  {
  }

  /** Division by a non-zero operand undoes multiplication, and the other
      way round, through `calculate` itself. */
  lemma CalculateMulRoundTrip(a: real, b: real)
    requires b != 0.0
    ensures Calculate(Calculate(a, b, "*").value, b, "/") == Success(a)
    ensures Calculate(Calculate(a, b, "/").value, b, "*") == Success(a)
  {
    var p, q := a * b, a / b;
    CalculateDispatch(a, b);
    CalculateDispatch(p, b);
    CalculateDispatch(q, b);
    assert p / b == a;
    assert q * b == a;
  }

  // ---------------------------------------------------------------------
  // rate_limit (lines 52-69)

  /** Line 63: the timestamps still inside the window ending at `now`, in
      their original order. */
  function Recent(calls: seq<real>, now: real, period: real): (r: seq<real>)
    ensures |r| <= |calls|
    ensures forall k :: 0 <= k < |r| ==> now - r[k] < period
    ensures forall t :: t in r <==> t in calls && now - t < period
    ensures forall t :: multiset(r)[t] == if now - t < period then multiset(calls)[t] else 0
  {
    if calls == [] then []
    else
      var init := Recent(calls[..|calls| - 1], now, period);
      var last := calls[|calls| - 1];
      assert calls == calls[..|calls| - 1] + [last];
      assert forall t :: t in calls <==> t in calls[..|calls| - 1] || t == last;
      init + (if now - last < period then [last] else [])
  }

  /** One call of the wrapper as a function of the stored timestamps: the
      window is pruned, and the call is admitted, with `now` appended, iff
      fewer than `maxCalls` timestamps remain. */
  function Admit(calls: seq<real>, now: real, maxCalls: int, period: real): (r: (bool, seq<real>))
    ensures r.0 <==> |Recent(calls, now, period)| < maxCalls
    ensures r.1 == Recent(calls, now, period) + (if r.0 then [now] else [])
  {
    var kept := Recent(calls, now, period);
    if |kept| < maxCalls then (true, kept + [now]) else (false, kept)
  }

  /** The stored list never holds more than `maxCalls` timestamps, whether
      the call is admitted or rejected. */
  lemma AdmitKeepsBound(calls: seq<real>, now: real, maxCalls: int, period: real)
    requires |calls| <= if maxCalls < 0 then 0 else maxCalls
    ensures |Admit(calls, now, maxCalls, period).1| <= if maxCalls < 0 then 0 else maxCalls
  {
  }

  /** After a call, every stored timestamp lies inside the window ending at
      `now` (the appended `now` too, for a positive period). */
  lemma AdmitKeepsWindow(calls: seq<real>, now: real, maxCalls: int, period: real)
    requires period > 0.0
    ensures forall t :: t in Admit(calls, now, maxCalls, period).1 ==> now - t < period
  {
  }

  /** The state a `rate_limit(maxCalls, period)` wrapper closes over. */
  class RateLimiter {
    const maxCalls: int
    const period: real
    var calls: seq<real>

    ghost predicate Valid()
      reads this
    {
      |calls| <= if maxCalls < 0 then 0 else maxCalls
    }

    constructor(maxCalls: int, period: real)
      ensures this.maxCalls == maxCalls && this.period == period
      ensures calls == [] && Valid()
    {
      this.maxCalls := maxCalls;
      this.period := period;
      calls := [];
    }

    /** The wrapper at clock reading `now`; `admitted` says whether the
        wrapped function runs. */
    method Call(now: real) returns (admitted: bool)
      requires Valid()
      modifies this
      ensures Valid()
      ensures (admitted, calls) == Admit(old(calls), now, maxCalls, period)
    {
      calls := Recent(calls, now, period);
      admitted := |calls| < maxCalls;
      if admitted {
        calls := calls + [now];
      }
      AdmitKeepsBound(old(calls), now, maxCalls, period);
    }
  }

  /** The module's demonstration (lines 72 and 101-103): five sends to a
      limiter of three calls per 60 seconds, all within one period, admit
      the first three and reject the last two. */
  method FiveSends(t: seq<real>) returns (admitted: seq<bool>)
    requires |t| == 5
    requires forall p, q :: 0 <= p <= q < 5 ==> t[p] <= t[q]
    requires t[4] - t[0] < 60.0
    ensures admitted == [true, true, true, false, false]
  {
    var limiter := new RateLimiter(3, 60.0);
    admitted := [];
    for k := 0 to 5
      invariant limiter.maxCalls == 3 && limiter.period == 60.0
      invariant limiter.Valid()
      invariant limiter.calls == t[..if k < 3 then k else 3]
      invariant |admitted| == k
      invariant forall j :: 0 <= j < k ==> admitted[j] == (j < 3)
    {
      SendWithinPeriod(t, k);
      var ok := limiter.Call(t[k]);
      admitted := admitted + [ok];
    }
  }

  /** The `k`-th send of the demonstration, as a function of the stored
      timestamps: admitted iff `k < 3`, and the first `min(k + 1, 3)` send
      times are stored afterwards. */
  lemma SendWithinPeriod(t: seq<real>, k: int)
    requires |t| == 5 && 0 <= k < 5
    requires forall p, q :: 0 <= p <= q < 5 ==> t[p] <= t[q]
    requires t[4] - t[0] < 60.0
    ensures Admit(t[..if k < 3 then k else 3], t[k], 3, 60.0)
      == (k < 3, t[..if k < 2 then k + 1 else 3])
  {
    var stored := t[..if k < 3 then k else 3];
    forall j | 0 <= j < |stored| ensures t[k] - stored[j] < 60.0 {
      assert t[0] <= t[j] && t[k] <= t[4];
    }
    RecentKeepsAll(stored, t[k], 60.0);
    if k < 3 {
      assert stored + [t[k]] == t[..k + 1];
    }
  }

  /** When every timestamp is inside the window, pruning keeps them all. */
  lemma {:induction false} RecentKeepsAll(calls: seq<real>, now: real, period: real)
    requires forall j :: 0 <= j < |calls| ==> now - calls[j] < period
    ensures Recent(calls, now, period) == calls
  {
    if calls != [] {
      var init := calls[..|calls| - 1];
      RecentKeepsAll(init, now, period);
      assert init + [calls[|calls| - 1]] == calls;
    }
  }

  // ---------------------------------------------------------------------
  // cache_decorator and fibonacci (lines 77-94)

  /** `cache_decorator` around a function `func` of one argument: `cache`
      maps arguments already seen to their results. */
  class Cache<K(==), V> {
    const func: K -> V
    var cache: map<K, V>

    /** Every cached result is the function's result. */
    ghost predicate Valid()
      reads this
    {
      forall k :: k in cache ==> cache[k] == func(k)
    }

    constructor(func: K -> V)
      ensures this.func == func && cache == map[] && Valid()
    {
      this.func := func;
      cache := map[];
    }

    /** The wrapper: a hit returns the stored result and leaves the cache
        alone; a miss calls `func` and stores its result. */
    method Call(args: K) returns (r: V)
      requires Valid()
      modifies this
      ensures Valid()
      ensures r == func(args)
      ensures args in old(cache) ==> cache == old(cache) && r == old(cache)[args]
      ensures args !in old(cache) ==> cache == old(cache)[args := r]
    {
      if args in cache {
        return cache[args];
      }
      r := func(args);
      cache := cache[args := r];
    }
  }

  /** The plain recursive definition (`n` itself for `n <= 1`). */
  function Fib(n: int): int
    decreases n
  {
    if n <= 1 then n else Fib(n - 1) + Fib(n - 2)
  }

  /** `fibonacci` decorated with `cache_decorator`: its recursive calls go
      through the wrapper, so they fill and reuse the same cache. */
  class MemoFibonacci {
    var cache: map<int, int>

    /** Every cache entry maps `n` to the Fibonacci number of `n`, and
        an entry for `n >= 2` was stored after those for `n - 1` and
        `n - 2`, which are still there. */
    ghost predicate Valid()
      reads this
    {
      && (forall n :: n in cache ==> cache[n] == Fib(n))
      && (forall n :: n in cache && n >= 2 ==> n - 1 in cache && n - 2 in cache)
    }

    constructor()
      ensures cache == map[] && Valid()
    {
      cache := map[];
    }

    /** The wrapper (lines 81-86) around `fibonacci`. */
    method Call(n: int) returns (r: int)
      requires Valid()
      modifies this
      ensures Valid()
      ensures r == Fib(n)
      ensures n in cache && old(cache).Keys <= cache.Keys
      ensures n in old(cache) ==> cache == old(cache)
      decreases if n < 0 then 0 else n, 1
    {
      if n in cache {
        return cache[n];
      }
      r := Fibonacci(n);
      cache := cache[n := r];
    }

    /** The body of `fibonacci` (lines 92-94). */
    method Fibonacci(n: int) returns (r: int)
      requires Valid()
      modifies this
      ensures Valid()
      ensures r == Fib(n)
      ensures old(cache).Keys <= cache.Keys
      ensures n >= 2 ==> n - 1 in cache && n - 2 in cache
      decreases if n < 0 then 0 else n, 0
    {
      if n <= 1 {
        return n;
      }
      var a := Call(n - 1);
      var b := Call(n - 2);
      r := a + b;
    }
  }

  /** The module's demonstration (lines 105-108): `fibonacci(10)` twice,
      then `fibonacci(8)` twice. The first call leaves the entries for 10
      and 8 in the cache, so the three later calls are answered from it and
      leave it as it was. */
  method RepeatedCalls() returns (first: int, second: int, third: int, fourth: int,
                                  cacheAfterFirst: map<int, int>, cacheAfterLast: map<int, int>)
    ensures first == 55 && second == 55 && third == 21 && fourth == 21
    ensures 10 in cacheAfterFirst && 8 in cacheAfterFirst
    ensures forall n :: n in cacheAfterFirst ==> cacheAfterFirst[n] == Fib(n)
    ensures cacheAfterLast == cacheAfterFirst
  {
    var memo := new MemoFibonacci();
    first := memo.Call(10);
    cacheAfterFirst := memo.cache;
    assert 9 in cacheAfterFirst;
    second := memo.Call(10);
    third := memo.Call(8);
    fourth := memo.Call(8);
    cacheAfterLast := memo.cache;
  }
}
