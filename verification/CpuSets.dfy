/**
 Cores for the pool's workers (perunner/src/worker.rs): each worker gets its own run of cores, whole
 pairs of an even and the following odd core.
 */
module CpuSets {
  import opened Bytes

  /** `n` cores from `begin` on. */
  function Cores(begin: nat, n: nat): (r: set<nat>)
    ensures |r| == n && forall k :: k in r <==> begin <= k < begin + n
  {
    if n == 0 then {} else Cores(begin, n - 1) + {begin + n - 1}
  }

  /** The cores of worker `i`. */
  function CoresOf(offset: nat, perWorker: nat, i: nat): set<nat> {
    Cores(offset + i * perWorker, perWorker)
  }

  predicate AllAllowed(allowed: set<nat>, offset: nat, perWorker: nat, n: nat) {
    forall i :: 0 <= i < n ==> CoresOf(offset, perWorker, i) <= allowed
  }

  /** No two workers share a core, nor the two cores of a pair. */
  predicate Separate(sets: seq<set<nat>>) {
    forall i, j :: 0 <= i < j < |sets| ==> sets[i] !! sets[j] && PairsApart(sets[i], sets[j])
  }

  predicate PairsApart(a: set<nat>, b: set<nat>) {
    forall x, y :: x in a && y in b ==> x / 2 != y / 2
  }

  lemma RunsApart(offset: nat, perWorker: nat, i: nat, j: nat)
    requires i < j && offset % 2 == 0 && perWorker % 2 == 0
    ensures CoresOf(offset, perWorker, i) !! CoresOf(offset, perWorker, j)
    ensures PairsApart(CoresOf(offset, perWorker, i), CoresOf(offset, perWorker, j))
  {
    hide Cores;
    var begin := offset + j * perWorker;
    assert i * perWorker + perWorker == (i + 1) * perWorker <= j * perWorker by { Ordered(i + 1, j, perWorker); }
    EvenProduct(j, perWorker);
    assert begin % 2 == 0;
    forall x, y | x in CoresOf(offset, perWorker, i) && y in CoresOf(offset, perWorker, j) ensures x / 2 != y / 2 {
      assert x < begin <= y;
    }
  }

  lemma Ordered(a: nat, b: nat, n: nat)
    requires a <= b
    ensures a * n <= b * n
  {
  }

  lemma EvenProduct(j: nat, n: nat)
    requires n % 2 == 0
    ensures j * n % 2 == 0
  {
    assert j * n == 2 * (j * (n / 2));
  }

  /**
   `cpuset`: it succeeds exactly when offset and size are even and every core needed is allowed, and
   then gives each worker its run of that many cores, apart from all others.
   */
  method Partition(allowed: set<nat>, offset: nat, workers: nat, perWorker: nat) returns (r: Option<seq<set<nat>>>)
    ensures r.Some? <==> offset % 2 == 0 && perWorker % 2 == 0 && AllAllowed(allowed, offset, perWorker, workers)
    ensures r.Some? ==> |r.value| == workers && Separate(r.value)
    ensures r.Some? ==> forall i :: 0 <= i < workers ==> |r.value[i]| == perWorker && r.value[i] <= allowed
    ensures r.Some? ==> forall i :: 0 <= i < workers ==> r.value[i] == CoresOf(offset, perWorker, i)
  {
    hide Cores, PairsApart;
    if offset % 2 == 1 || perWorker % 2 == 1 { return None; }
    var sets := [];
    var i := 0;
    while i < workers
      invariant 0 <= i == |sets| <= workers && AllAllowed(allowed, offset, perWorker, i)
      invariant forall k :: 0 <= k < i ==> sets[k] == CoresOf(offset, perWorker, k)
    {
      var c := OneSet(allowed, offset + i * perWorker, perWorker);
      if c.None? {
        assert !(CoresOf(offset, perWorker, i) <= allowed);
        return None;
      }
      sets := sets + [c.value];
      i := i + 1;
    }
    forall a, b | 0 <= a < b < |sets| ensures sets[a] !! sets[b] && PairsApart(sets[a], sets[b]) {
      RunsApart(offset, perWorker, a, b);
    }
    return Some(sets);
  }

  /** The inner loop: one worker's cores. */
  method OneSet(allowed: set<nat>, begin: nat, n: nat) returns (r: Option<set<nat>>)
    ensures r.Some? <==> Cores(begin, n) <= allowed
    ensures r.Some? ==> r.value == Cores(begin, n)
  {
    hide Cores;
    var c: set<nat> := {};
    var j := 0;
    NoCores(begin);
    while j < n
      invariant 0 <= j <= n && c == Cores(begin, j) <= allowed
    {
      var k := begin + j;
      if k !in allowed {
        assert k in Cores(begin, n);
        return None;
      }
      c := c + {k};
      j := j + 1;
      OneMore(begin, j, c);
    }
    return Some(c);
  }

  lemma NoCores(begin: nat)
    ensures Cores(begin, 0) == {}
  {
  }

  lemma OneMore(begin: nat, n: nat, c: set<nat>)
    requires n > 0 && c == Cores(begin, n - 1) + {begin + n - 1}
    ensures c == Cores(begin, n)
  {
  }
}
