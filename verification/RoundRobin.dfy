/**
  The round-robin balancer. The index is advanced before it is used; the weights are only summed.
 */
module RoundRobin {
  import opened Common
  import opened Division
  import Lookup

  type Instance = Lookup.Instance

  function TotalWeight(hosts: seq<Instance>): int {
    if hosts == [] then 0 else TotalWeight(hosts[..|hosts| - 1]) + hosts[|hosts| - 1].weight
  }

  lemma {:induction false} TotalConcat(a: seq<Instance>, b: seq<Instance>)
    ensures TotalWeight(a + b) == TotalWeight(a) + TotalWeight(b)
    ensures |b| == 1 ==> TotalWeight(b) == b[0].weight
  {
    if b == [] {
      assert a + b == a;
    } else {
      var n := |b| - 1;
      TotalConcat(a, b[..n]);
      assert (a + b)[..|a + b| - 1] == a + b[..n];
    }
  }

  /** The sum of the weights, which wraps around. */
  method SumWeights(hosts: seq<Instance>) returns (total: int64)
    ensures total == Wrap64(TotalWeight(hosts))
  {
    hide Wrap64;
    total := 0;
    WrapFits(0);
    for i := 0 to |hosts|
      invariant total == Wrap64(TotalWeight(hosts[..i]))
    {
      assert hosts[..i + 1][..i] == hosts[..i];
      WrapAdd(TotalWeight(hosts[..i]), hosts[i].weight);
      total := Add64(total, hosts[i].weight);
    }
    assert hosts[..|hosts|] == hosts;
  }

  class RoundRobinBalancer {
    var nextIndex: nat
    var totalWeight: int64

    /** No slice is as long as 2^63, so the index plus one does not overflow. */
    ghost predicate Valid()
      reads this
    {
      nextIndex < TWO_63 - 1
    }

    constructor ()
      ensures Valid() && nextIndex == 0 && totalWeight == 0
    {
      nextIndex, totalWeight := 0, 0;
    }

    /** None is the error for a service without instances. */
    method Pick(hosts: seq<Instance>) returns (r: Option<Instance>)
      requires Valid() && |hosts| < TWO_63
      modifies this
      ensures Valid()
      ensures hosts == [] ==> r.None? && nextIndex == old(nextIndex) && totalWeight == old(totalWeight)
      ensures hosts != [] ==>
                && nextIndex == Next(old(nextIndex), |hosts|) == (old(nextIndex) + 1) % |hosts|
                && r == Some(hosts[nextIndex])
                && totalWeight == Wrap64(TotalWeight(hosts))
    {
      if |hosts| == 0 {
        return None;
      }
      totalWeight := SumWeights(hosts);
      nextIndex := Increment(nextIndex) % |hosts|;
      return Some(hosts[nextIndex]);
    }
  }

  /** Go's index + 1. */
  function Increment(index: nat): (r: nat)
    requires index < TWO_63 - 1
    ensures r == index + 1
  {
    WrapFits(index + 1);
    Add64(index, 1)
  }

  /** The index a pick on n instances moves to, whatever index earlier services left. */
  function Next(index: nat, n: nat): (i: nat)
    requires n > 0
    ensures i < n
  {
    (index + 1) % n
  }

  /** The positions m consecutive picks on n instances choose, from index `index`. */
  function Picks(index: nat, n: nat, m: nat): (p: seq<nat>)
    requires n > 0
    ensures |p| == m && forall k :: 0 <= k < m ==> p[k] < n
    decreases m
  {
    if m == 0 then [] else [Next(index, n)] + Picks(Next(index, n), n, m - 1)
  }

  function Count(p: seq<nat>, j: nat): nat {
    if p == [] then 0 else (if p[0] == j then 1 else 0) + Count(p[1..], j)
  }

  /** How many picks choose something else before position j comes up. */
  function Wait(index: nat, n: nat, j: nat): (d: nat)
    requires j < n
    ensures d < n
  {
    var i := Next(index, n);
    if j >= i then j - i else j + n - i
  }

  /** Position j comes up after its wait and then every n picks. */
  lemma {:induction false} CountExact(index: nat, n: nat, j: nat, m: nat)
    requires j < n
    ensures Count(Picks(index, n, m), j) == Div(m + n - 1 - Wait(index, n, j), n)
    decreases m
  {
    hide Div, Next;
    var d := Wait(index, n, j);
    if m == 0 {
      DivSmall(n - 1 - d, n);
    } else {
      var i, p := Next(index, n), Picks(index, n, m);
      CountExact(i, n, j, m - 1);
      assert p[0] == i && p[1..] == Picks(i, n, m - 1);
      NextStep(i, n);
      if d == 0 {
        assert i == j && Wait(i, n, j) == n - 1;
        assert (m - 1) + n - 1 - (n - 1) == m - 1 && m + n - 1 - d == (m - 1) + n;
        DivAdd(m - 1, n);
      } else {
        assert i != j && Wait(i, n, j) == d - 1;
        assert (m - 1) + n - 1 - (d - 1) == m + n - 1 - d;
      }
    }
  }

  lemma NextStep(i: nat, n: nat)
    requires i < n
    ensures Next(i, n) == if i + 1 == n then 0 else i + 1
  {
  }

  /**
    Fairness: from any index earlier services left, in m consecutive picks each of n positions is
    chosen m / n times, rounded down or up.
   */
  lemma Fairness(index: nat, n: nat, j: nat, m: nat)
    requires j < n
    ensures m / n <= Count(Picks(index, n, m), j) <= (m + n - 1) / n
  {
    assert Div(m, n) == m / n && Div(m + n - 1, n) == (m + n - 1) / n;
    hide Div, Picks, Count, Wait;
    CountExact(index, n, j, m);
    DivMonotone(m, m + n - 1 - Wait(index, n, j), n);
    DivMonotone(m + n - 1 - Wait(index, n, j), m + n - 1, n);
  }
}
