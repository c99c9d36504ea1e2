/**
 * fibonacci_memo of lab03/src/memoization.py. The source keeps its cache in
 * a module-level dictionary `memo`; here that dictionary is the field of a
 * cache object, and every call may only add entries to it.
 */
module Memoization {
  import opened Recursion

  /** Which keys a call fibonacci_memo(n) adds to the cache: n itself and,
      for n >= 2, every smaller natural number. */
  predicate AddedBy(n: nat, k: int)
  {
    k == n || (n >= 2 && 0 <= k < n)
  }

  /** The keys added by fibonacci_memo(n - 1) followed by fibonacci_memo(n - 2)
      are, together with n, the keys added by fibonacci_memo(n). */
  lemma NewKeysOfBothCalls(n: nat, k0: set<nat>, k1: set<nat>, k2: set<nat>)
    requires n >= 2
    requires forall k :: k in k1 <==> k in k0 || AddedBy(n - 1, k)
    requires forall k :: k in k2 <==> k in k1 || AddedBy(n - 2, k)
    ensures forall k :: k in k2 + {n} <==> k in k0 || AddedBy(n, k)
  {
    forall k | AddedBy(n, k)
      ensures k in k2 + {n}
    {
      if k < n - 2 {
        assert AddedBy(n - 1, k);
      }
    }
  }

  /** Every cached value is the Fibonacci number of its key, and a cached
      key k >= 2 was computed through every smaller key, which are cached too. */
  ghost predicate Consistent(memo: map<nat, nat>)
  {
    && (forall k :: k in memo ==> memo[k] == Fibonacci(k))
    && (forall k, j :: k in memo && k >= 2 && 0 <= j < k ==> j in memo)
  }

  /** Storing the n-th Fibonacci number keeps the cache consistent once
      both previous numbers are cached. */
  lemma StoreConsistent(memo: map<nat, nat>, n: nat)
    requires Consistent(memo)
    requires n >= 2 ==> n - 1 in memo && n - 2 in memo
    ensures Consistent(memo[n := Fibonacci(n)])
  {
    var m := memo[n := Fibonacci(n)];
    forall k, j | k in m && k >= 2 && 0 <= j < k
      ensures j in m
    {
      if k == n && j < n - 2 {
        assert n - 1 >= 2 && j < n - 1;
      }
    }
  }

  class FibonacciCache {
    /** The cache: memo[k] is the k-th Fibonacci number once it has been computed. */
    var memo: map<nat, nat>

    /** The cache is consistent. */
    ghost predicate Valid()
      reads this
    {
      Consistent(memo)
    }

    /** The module starts with an empty dictionary. */
    constructor()
      ensures Valid() && memo == map[]
    {
      memo := map[];
    }

    /** fibonacci_memo(n): returns the cached value when n is known; otherwise
        computes it from the two previous numbers (recursively, through the
        cache) and stores it under n. */
    method FibonacciMemo(n: nat) returns (r: nat)
      requires Valid()
      modifies this
      decreases n
      ensures Valid()
      ensures r == Fibonacci(n)
      ensures n in memo && memo[n] == r
      ensures forall k :: k in old(memo) ==> k in memo && memo[k] == old(memo)[k]
      ensures forall k :: k in memo <==> k in old(memo) || AddedBy(n, k)
      ensures n in old(memo) ==> memo == old(memo)
    {
      if n in memo {
        r := memo[n];
        return;
      }
      if n == 0 {
        StoreConsistent(memo, n);
        memo := memo[n := 0];
      } else if n == 1 {
        StoreConsistent(memo, n);
        memo := memo[n := 1];
      } else {
        ghost var k0 := memo.Keys;
        var a := FibonacciMemo(n - 1);
        ghost var k1 := memo.Keys;
        var b := FibonacciMemo(n - 2);
        NewKeysOfBothCalls(n, k0, k1, memo.Keys);
        assert a + b == Fibonacci(n);
        StoreConsistent(memo, n);
        memo := memo[n := a + b];
      }
      r := memo[n];
    }
  }

  /** The benchmark's calls on one module-level cache: fibonacci_memo(first)
      (35 in the source), then fibonacci_memo(n) for each n of nValues
      ([10, 20, 30, 35]). Every result is the naive Fibonacci number; the
      first call leaves exactly its added keys cached, and when no later n
      exceeds it (and first is not 1, which caches only itself) the later
      calls are all served from the cache. */
  method Benchmark(first: nat, nValues: seq<nat>)
    returns (results: seq<nat>, afterFirst: map<nat, nat>, afterAll: map<nat, nat>)
    ensures |results| == |nValues| + 1 && results[0] == Fibonacci(first)
    ensures forall i :: 0 <= i < |nValues| ==> results[i + 1] == Fibonacci(nValues[i])
    ensures forall k :: k in afterFirst <==> AddedBy(first, k)
    ensures first != 1 && (forall i :: 0 <= i < |nValues| ==> nValues[i] <= first) ==>
      afterAll == afterFirst
  {
    var cache := new FibonacciCache();
    var r := cache.FibonacciMemo(first);
    results := [r];
    afterFirst := cache.memo;
    for i := 0 to |nValues|
      invariant cache.Valid()
      invariant |results| == i + 1 && results[0] == Fibonacci(first)
      invariant forall j :: 0 <= j < i ==> results[j + 1] == Fibonacci(nValues[j])
      invariant first != 1 && (forall j :: 0 <= j < |nValues| ==> nValues[j] <= first) ==>
        cache.memo == afterFirst
    {
      r := cache.FibonacciMemo(nValues[i]);
      results := results + [r];
    }
    afterAll := cache.memo;
  }
}
