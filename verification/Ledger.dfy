/** A log of what happened to resources, and what it means to release each of them exactly once. */
module Ledger {

  datatype Event<+R> = Acquire(r: R) | Use(r: R) | Release(r: R)

  ghost function After<R>(live: set<R>, e: Event<R>): set<R> {
    match e
    case Acquire(r) => live + {r}
    case Use(_) => live
    case Release(r) => live - {r}
  }

  ghost function Live<R>(log: seq<Event<R>>): set<R> {
    if log == [] then {} else After(Live(log[..|log| - 1]), log[|log| - 1])
  }

  /** Only dead resources are acquired; only live ones are used or released. */
  ghost predicate Legal<R>(log: seq<Event<R>>) {
    log != [] ==>
      var n := |log| - 1;
      Legal(log[..n]) && (log[n].Acquire? <==> log[n].r !in Live(log[..n]))
  }

  ghost function Count<R>(log: seq<Event<R>>, e: Event<R>): nat {
    if log == [] then 0 else Count(log[..|log| - 1], e) + if log[|log| - 1] == e then 1 else 0
  }

  lemma Append<R>(log: seq<Event<R>>, e: Event<R>)
    ensures Live(log + [e]) == After(Live(log), e)
    ensures Legal(log + [e]) <==> Legal(log) && (e.Acquire? <==> e.r !in Live(log))
    ensures forall x :: Count(log + [e], x) == Count(log, x) + if x == e then 1 else 0
  {
  }

  /** In a legal log a resource has been released once per acquisition, save the one that is still live. */
  lemma {:induction false} Balance<R>(log: seq<Event<R>>, r: R)
    requires Legal(log)
    ensures Count(log, Acquire(r)) == Count(log, Release(r)) + if r in Live(log) then 1 else 0
  {
    if log != [] {
      Balance(log[..|log| - 1], r);
    }
  }

  lemma {:induction false} DeadUntilAcquired<R>(log: seq<Event<R>>, i: nat, j: nat, r: R)
    requires Legal(log) && i < j <= |log| && log[i] == Release(r)
    requires forall k :: i < k < j ==> log[k] != Acquire(r)
    ensures r !in Live(log[..j])
    decreases j
  {
    assert log[..j][..j - 1] == log[..j - 1];
    if i < j - 1 {
      DeadUntilAcquired(log, i, j - 1, r);
    }
  }

  lemma {:induction false} PrefixLegal<R>(log: seq<Event<R>>, j: nat)
    requires Legal(log) && j <= |log|
    ensures Legal(log[..j])
  {
    if j < |log| {
      assert log[..|log| - 1][..j] == log[..j];
      PrefixLegal(log[..|log| - 1], j);
    } else {
      assert log[..j] == log;
    }
  }

  /** No double release, no use after release: between a release and a later use or release lies a new acquisition. */
  lemma ReleasedMeansGone<R>(log: seq<Event<R>>, i: nat, j: nat, r: R)
    requires Legal(log) && i < j < |log| && log[i] == Release(r) && (log[j] == Release(r) || log[j] == Use(r))
    ensures exists k :: i < k < j && log[k] == Acquire(r)
  {
    PrefixLegal(log, j + 1);
    assert log[..j + 1][..j] == log[..j];
    if forall k :: i < k < j ==> log[k] != Acquire(r) {
      DeadUntilAcquired(log, i, j, r);
    }
  }
}
