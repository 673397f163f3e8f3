/**
 * The total of an account's outgoing vesting delegations, in raw VESTS units.
 */
module Delegations {
  import opened HiveRecords

  predicate AllNonNegative(ds: seq<Delegation>) {
    forall i :: 0 <= i < |ds| ==> ds[i].amount >= 0
  }

  /** Sum of the delegated amounts. */
  function VestsDelegated(ds: seq<Delegation>): (total: int)
    ensures AllNonNegative(ds) ==> total >= 0
    ensures AllNonNegative(ds) ==> forall i :: 0 <= i < |ds| ==> ds[i].amount <= total
  {
    if ds == [] then 0 else ds[0].amount + VestsDelegated(ds[1..])
  }

  lemma EmptyIsZero()
    ensures VestsDelegated([]) == 0
  {
  }

  /** The total of a concatenation is the sum of the totals. */
  lemma {:induction false} VestsDelegatedAppend(a: seq<Delegation>, b: seq<Delegation>)
    ensures VestsDelegated(a + b) == VestsDelegated(a) + VestsDelegated(b)
  {
    if a == [] {
      assert a + b == b;
    } else {
      assert (a + b)[1..] == a[1..] + b;
      VestsDelegatedAppend(a[1..], b);
    }
  }

  /** Taking one delegation out of the list lowers the total by its amount. */
  lemma VestsDelegatedRemove(b: seq<Delegation>, k: nat)
    requires k < |b|
    ensures VestsDelegated(b) == b[k].amount + VestsDelegated(b[..k] + b[k + 1..])
  {
    var pre, from, post := b[..k], b[k..], b[k + 1..];
    assert pre + from == b;
    assert from[1..] == post;
    VestsDelegatedAppend(pre, from);
    VestsDelegatedAppend(pre, post);
  }

  /** The order in which the node lists the delegations does not matter. */
  lemma {:induction false} VestsDelegatedPermutation(a: seq<Delegation>, b: seq<Delegation>)
    requires multiset(a) == multiset(b)
    ensures VestsDelegated(a) == VestsDelegated(b)
    decreases |a|
  {
    if a == [] {
      assert |b| == |multiset(b)| == 0;
    } else {
      var d := a[0];
      assert d in multiset(b);
      var k :| 0 <= k < |b| && b[k] == d;
      var b' := b[..k] + b[k + 1..];
      MultisetRemove(a, b, k);
      VestsDelegatedPermutation(a[1..], b');
      VestsDelegatedRemove(b, k);
    }
  }

  lemma MultisetRemove(a: seq<Delegation>, b: seq<Delegation>, k: nat)
    requires |a| > 0 && k < |b| && b[k] == a[0]
    requires multiset(a) == multiset(b)
    ensures multiset(a[1..]) == multiset(b[..k] + b[k + 1..])
  {
    assert a == [a[0]] + a[1..];
    assert b == b[..k] + [b[k]] + b[k + 1..];
    assert multiset(a[1..]) == multiset(a) - multiset{a[0]};
    assert multiset(b[..k] + b[k + 1..]) == multiset(b) - multiset{b[k]};
  }

  /** The left-to-right accumulation Python's `sum` performs. */
  method SumDelegations(ds: seq<Delegation>) returns (total: int)
    ensures total == VestsDelegated(ds)
  {
    total := 0;
    var i := 0;
    while i < |ds|
      invariant 0 <= i <= |ds|
      invariant total == VestsDelegated(ds[..i])
    {
      VestsDelegatedAppend(ds[..i], [ds[i]]);
      assert ds[..i + 1] == ds[..i] + [ds[i]];
      assert [ds[i]][1..] == [];
      total := total + ds[i].amount;
      i := i + 1;
    }
    assert ds[..i] == ds;
  }
}
