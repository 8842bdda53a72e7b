/** What a database keeps when any storage call may fail, and what a reopening can uncover. */
module SecureDbFaults {
  import opened Base
  import opened SecureDb
  import R = SecureDbRefinement

  /** Every key in memory has an object, and the index is not taken for a key. */
  ghost predicate Backed(db: Database, s: State) {
    db.name !in s.keys && s.keys <= s.store.Keys
  }

  /** Keys the persisted list promises although their object is gone. */
  ghost function Dangling(db: Database, store: Store): set<Key> {
    match db.Persisted(store)
    case Some(keys) => keys - store.Keys
    case None => {}
  }

  ghost predicate Usable(db: Database, op: Op) {
    op.Fair() && !op.Reopen? && (op.Put? ==> op.key != db.name)
  }

  /** This operation removed the object of `k` and then could not write the index. */
  ghost predicate LosesIndexWrite(s: State, op: Op, k: Key) {
    match op
    case Delete(key, fate) => key == k && fate == DeleteFate(true, false)
    case Clear(order, fates) =>
      exists i :: 0 <= i < |order(s.keys)| && order(s.keys)[i] == k && fates(i) == DeleteFate(true, false)
    case _ => false
  }

  lemma {:induction false} ClearFaults(db: Database, s: State, order: seq<Key>, fates: nat -> DeleteFate, i: nat)
    requires db.codec.RoundTrips() && Backed(db, s)
    requires i <= |order| && db.name !in order[i..]
    ensures var (s', r) := db.ClearStep(s, order, fates, i);
            && Backed(db, s')
            && forall k :: k in Dangling(db, s'.store) && k !in Dangling(db, s.store) ==>
                             && r == Err && k in s.store && k !in s'.store
                             && exists j :: i <= j < |order| && order[j] == k && fates(j) == DeleteFate(true, false)
    decreases |order| - i
  {
    if i < |order| {
      assert order[i..] == [order[i]] + order[i + 1..];
      var (s1, r1) := db.DeleteStep(s, order[i], fates(i));
      if r1 == Ok {
        assert Dangling(db, s1.store) == {};
        ClearFaults(db, s1, order, fates, i + 1);
      }
    }
  }

  /** One call under arbitrary failures: memory stays backed, and only a lost index write can leave a key dangling. */
  lemma StepUnderFaults(db: Database, s: State, op: Op)
    requires db.codec.RoundTrips() && Backed(db, s) && Usable(db, op)
    ensures var (s', r) := db.Exec(s, op);
            && Backed(db, s')
            && forall k :: k in Dangling(db, s'.store) && k !in Dangling(db, s.store) ==>
                             r == Err && k in s.store && k !in s'.store && LosesIndexWrite(s, op, k)
  {
    if op.Clear? {
      ClearFaults(db, s, op.order(s.keys), op.fates, 0);
    }
  }

  /**
  Over every run without reopening, with failures anywhere: every key in memory
  still has its object; and a key left dangling in the persisted list was lost
  by some earlier delete or clear that removed its object, could not write the
  index and answered an error. No put is ever the cause.
  */
  lemma {:induction false} RunUnderFaults(db: Database, s: State, ops: seq<Op>)
    requires db.codec.RoundTrips() && Backed(db, s) && Dangling(db, s.store) == {}
    requires forall i :: 0 <= i < |ops| ==> Usable(db, ops[i])
    ensures Backed(db, db.Run(s, ops))
    ensures forall k :: k in Dangling(db, db.Run(s, ops).store) ==>
                          exists i :: 0 <= i < |ops| && LosesIndexWrite(db.Run(s, ops[..i]), ops[i], k)
                                      && k in db.Run(s, ops[..i]).store && k !in db.Run(s, ops[..i + 1]).store
                                      && db.Exec(db.Run(s, ops[..i]), ops[i]).1 == Err
    decreases |ops|
  {
    if ops == [] { return; }
    var n := |ops| - 1;
    var before := db.Run(s, ops[..n]);
    RunUnderFaults(db, s, ops[..n]);
    RunSnoc(db, s, ops);
    StepUnderFaults(db, before, ops[n]);
    assert ops[..n + 1] == ops;
    forall k | k in Dangling(db, db.Run(s, ops).store)
      ensures exists i :: 0 <= i < |ops| && LosesIndexWrite(db.Run(s, ops[..i]), ops[i], k)
                          && k in db.Run(s, ops[..i]).store && k !in db.Run(s, ops[..i + 1]).store
                          && db.Exec(db.Run(s, ops[..i]), ops[i]).1 == Err
    {
      if k in Dangling(db, before.store) {
        var i :| 0 <= i < n && LosesIndexWrite(db.Run(s, ops[..n][..i]), ops[..n][i], k)
                 && k in db.Run(s, ops[..n][..i]).store && k !in db.Run(s, ops[..n][..i + 1]).store
                 && db.Exec(db.Run(s, ops[..n][..i]), ops[..n][i]).1 == Err;
        assert ops[..n][..i] == ops[..i] && ops[..n][..i + 1] == ops[..i + 1];
      } else {
        assert LosesIndexWrite(before, ops[n], k);
      }
    }
  }

  lemma {:induction false} RunSnoc(db: Database, s: State, ops: seq<Op>)
    requires ops != []
    ensures db.Run(s, ops) == db.Exec(db.Run(s, ops[..|ops| - 1]), ops[|ops| - 1]).0
    decreases |ops|
  {
    var n := |ops| - 1;
    if n == 0 {
      assert ops[..n] == [] && ops[1..] == [];
    } else {
      assert ops[1..][..n - 1] == ops[..n][1..];
      RunSnoc(db, db.Exec(s, ops[0]).0, ops[1..]);
    }
  }

  /** The exact effect of put and delete on the dangling keys: an index write that succeeds removes them all. */
  lemma DanglingLaw(db: Database, s: State, op: Op)
    requires db.codec.RoundTrips() && Backed(db, s) && (op.Put? || op.Delete?) && op.key != db.name
    ensures var (s', r) := db.Exec(s, op);
            Dangling(db, s'.store) ==
            if r == Ok then {}
            else if op.Put? && op.saved then Dangling(db, s.store) - {op.key}
            else if op.Delete? && op.key in s.keys && op.fate.removed
            then Dangling(db, s.store)
                 + ({op.key} * match db.Persisted(s.store) case Some(keys) => keys case None => {})
            else Dangling(db, s.store)
  {
  }

  /** A put that fails leaves its own object old or new, the persisted list as it was and every other object alone. */
  lemma FailedPut(db: Database, s: State, key: Key, value: Bytes, saved: bool, indexed: bool)
    requires key != db.name && db.PutStep(s, key, value, saved, indexed).1 == Err
    ensures var s' := db.PutStep(s, key, value, saved, indexed).0;
            && (s' == s || (key in s'.store && s'.store[key] == value && s'.keys == s.keys + {key}))
            && db.Persisted(s'.store) == db.Persisted(s.store)
            && (forall o :: o != key ==> (o in s'.store <==> o in s.store))
            && (forall o :: o != key && o in s.store ==> s'.store[o] == s.store[o])
  {
  }

  /** A clear, stopped early or not, leaves in memory exactly those of its keys whose objects remain, unchanged. */
  lemma StoppedClear(db: Database, s: State, op: Op)
    requires db.codec.RoundTrips() && Backed(db, s) && op.Clear? && op.Fair()
    ensures var (s', r) := db.Exec(s, op);
            && s'.keys == (set k | k in s.keys && k in s'.store)
            && (forall k :: k in s'.keys ==> s'.store[k] == s.store[k])
            && (forall o :: o !in s.keys && o != db.name ==> (o in s'.store <==> o in s.store))
            && (r == Ok ==> s'.keys == {})
  {
    var order := op.order(s.keys);
    assert order[0..] == order;
    ClearEffect(db, s, order, op.fates, 0);
    ClearFaults(db, s, order, op.fates, 0);
  }

  // ----------------------------------------------- where a clear stops, exactly

  /** This entry of memory and its object are as they were. */
  ghost predicate Kept(before: State, after: State, k: Key) {
    && (k in after.keys <==> k in before.keys)
    && (k in after.store <==> k in before.store) && (k in before.store ==> after.store[k] == before.store[k])
  }

  ghost predicate Gone(s: State, k: Key) { k !in s.keys && k !in s.store }

  /** No two of these keys are the same. */
  ghost predicate Distinct(order: seq<Key>) {
    forall i, j :: 0 <= i < j < |order| ==> order[i] != order[j]
  }

  lemma {:induction false} ClearFromStopsAt(
    db: Database, s: State, order: seq<Key>, fates: nat -> DeleteFate, i: nat, j: nat)
    requires db.codec.RoundTrips() && Backed(db, s) && Distinct(order) && i <= j <= |order|
    requires forall l :: i <= l < |order| ==> order[l] in s.keys
    requires forall l :: i <= l < j ==> fates(l) == DeleteFate(true, true)
    requires j < |order| ==> fates(j) != DeleteFate(true, true)
    ensures var (s', r) := db.ClearStep(s, order, fates, i);
            && r == (if j == |order| then Ok else Err)
            && (forall l :: i <= l < j ==> Gone(s', order[l]))
            && (j < |order| ==> if fates(j).removed then Gone(s', order[j]) else Kept(s, s', order[j]))
            && (forall l :: j < l < |order| ==> Kept(s, s', order[l]))
            && (forall k :: k !in order[i..] && k != db.name ==> Kept(s, s', k))
            && db.Persisted(s'.store) == if i == j then db.Persisted(s.store) else Some(s.keys - Elements(order[i..j]))
    decreases |order| - i
  {
    if i < |order| {
      var s1 := db.DeleteStep(s, order[i], fates(i)).0;
      assert order[i] in order[i..];
      if i < j {
        ClearFromStopsAt(db, s1, order, fates, i + 1, j);
        assert order[i..] == [order[i]] + order[i + 1..] && order[i..j] == [order[i]] + order[i + 1..j];
        assert s.keys - Elements(order[i..j]) == s1.keys - Elements(order[i + 1..j]);
        assert order[i] !in order[i + 1..] && Gone(s1, order[i]);
        assert db.Persisted(s1.store) == Some(s1.keys);
        if i + 1 == j { assert s1.keys - Elements(order[i + 1..j]) == s1.keys; }
      }
    }
  }

  ghost function Elements(keys: seq<Key>): set<Key> { set k | k in keys }

  /**
  Where a clear stops: at the first key whose removal or index write fails. Every key
  before that one has lost entry and object; that one has lost both if and only if its
  removal succeeded; every key after it keeps its entry, its object and the bytes in it,
  and so does everything else. The persisted list is the one written last. The answer is
  an error; without such a key it is Ok and nothing is left.
  */
  lemma ClearStopsAtFirstError(db: Database, s: State, op: Op, j: nat)
    requires db.codec.RoundTrips() && Backed(db, s) && op.Clear? && op.Fair() && j <= |op.order(s.keys)|
    requires forall l :: 0 <= l < j ==> op.fates(l) == DeleteFate(true, true)
    requires j < |op.order(s.keys)| ==> op.fates(j) != DeleteFate(true, true)
    ensures var order := op.order(s.keys);
            var (s', r) := db.Exec(s, op);
            && r == (if j == |order| then Ok else Err)
            && (forall l :: 0 <= l < j ==> Gone(s', order[l]))
            && (j < |order| ==> if op.fates(j).removed then Gone(s', order[j]) else Kept(s, s', order[j]))
            && (forall l :: j < l < |order| ==> Kept(s, s', order[l]))
            && (forall k :: k !in s.keys && k != db.name ==> Kept(s, s', k))
            && db.Persisted(s'.store) == if j == 0 then db.Persisted(s.store) else Some(s.keys - Elements(order[..j]))
  {
    var order := op.order(s.keys);
    assert order[0..] == order && order[0..j] == order[..j];
    assert forall l :: 0 <= l < |order| ==> order[l] in order;
    ClearFromStopsAt(db, s, order, op.fates, 0, j);
  }

  // ---------------------------------------------------------- after a reopening

  /** `k` is listed in memory and in storage, but has no object. */
  ghost predicate Ghost(db: Database, s: State, k: Key) {
    && k in s.keys && k !in s.store && db.name !in s.keys
    && db.Persisted(s.store).Some? && k in db.Persisted(s.store).value && db.name !in db.Persisted(s.store).value
  }

  /** This operation needs the object of `k`. */
  ghost predicate Needs(op: Op, k: Key) {
    match op
    case Get(key, _) => key == k
    case Delete(key, _) => key == k
    case Clear(_, _) => true
    case List(prefix, _, _) => StartsWith(k, prefix)
    case _ => false
  }

  /** Anything but a put that manages to save `k`. */
  ghost predicate LeavesMissing(db: Database, op: Op, k: Key) {
    op.Fair() && (op.Put? ==> op.key != db.name && (op.key != k || !op.saved))
  }

  lemma {:induction false} ClearOverGhost(
    db: Database, s: State, order: seq<Key>, fates: nat -> DeleteFate, i: nat, k: Key)
    requires db.codec.RoundTrips() && Ghost(db, s, k)
    requires i <= |order| && k in order[i..] && db.name !in order[i..]
    ensures var (s', r) := db.ClearStep(s, order, fates, i); Ghost(db, s', k) && r == Err
    decreases |order| - i
  {
    assert order[i..] == [order[i]] + order[i + 1..];
    var (s1, r1) := db.DeleteStep(s, order[i], fates(i));
    if r1 == Ok {
      ClearOverGhost(db, s1, order, fates, i + 1, k);
    }
  }

  lemma StepOverGhost(db: Database, s: State, op: Op, k: Key)
    requires db.codec.RoundTrips() && Ghost(db, s, k) && LeavesMissing(db, op, k)
    ensures var (s', r) := db.Exec(s, op); Ghost(db, s', k) && (Needs(op, k) ==> r == Err)
  {
    match op
    case Clear(order, fates) =>
      assert order(s.keys)[0..] == order(s.keys);
      ClearOverGhost(db, s, order(s.keys), fates, 0, k);
    case List(prefix, order, loads) =>
      var keys := order(s.keys);
      ListEffect(db, s, prefix, keys, loads, |keys|);
      var j :| 0 <= j < |keys| && keys[j] == k;
    case _ =>
  }

  /**
  Once a reopening has brought back a key whose object is missing, then until
  that key is put again, whatever else runs, fails or is reopened: the key stays
  listed, and every get or delete of it, every clear and every listing whose
  prefix covers it answers an error.
  */
  lemma {:induction false} RunOverGhost(db: Database, s: State, ops: seq<Op>, k: Key)
    requires db.codec.RoundTrips() && Ghost(db, s, k)
    requires forall i :: 0 <= i < |ops| ==> LeavesMissing(db, ops[i], k)
    ensures Ghost(db, db.Run(s, ops), k)
    ensures |db.Replies(s, ops)| == |ops|
    ensures forall i :: 0 <= i < |ops| && Needs(ops[i], k) ==> db.Replies(s, ops)[i] == Err
    decreases |ops|
  {
    if ops != [] {
      StepOverGhost(db, s, ops[0], k);
      var s1 := db.Exec(s, ops[0]).0;
      RunOverGhost(db, s1, ops[1..], k);
      forall i | 0 <= i < |ops| && Needs(ops[i], k) ensures db.Replies(s, ops)[i] == Err {
        if i > 0 {
          assert ops[i] == ops[1..][i - 1];
          assert db.Replies(s, ops)[i] == db.Replies(s1, ops[1..])[i - 1];
        }
      }
    }
  }

  /** A dangling key becomes such a ghost as soon as the database is reopened. */
  lemma ReopenUncovers(db: Database, s: State, k: Key)
    requires k in Dangling(db, s.store) && db.name !in db.Persisted(s.store).value
    ensures Ghost(db, db.Exec(s, Reopen(true)).0, k)
  {
  }

  /** Saving the key again ends it, index write or not. */
  lemma PutEndsGhost(db: Database, s: State, k: Key, value: Bytes, indexed: bool)
    requires Ghost(db, s, k)
    ensures var s' := db.PutStep(s, k, value, true, indexed).0;
            db.GetStep(s', k, true) == Value(value) && !Ghost(db, s', k)
  {
  }

  /** Every key the persisted list has and memory has not is without an object. */
  ghost predicate MissingAreGone(db: Database, s: State) {
    match db.Persisted(s.store)
    case Some(keys) => db.name !in keys && forall k :: k in keys && k !in s.keys ==> k !in s.store
    case None => false
  }

  lemma {:induction false} ClearKeepsMissing(
    db: Database, s: State, order: seq<Key>, fates: nat -> DeleteFate, i: nat)
    requires db.codec.RoundTrips() && Backed(db, s) && MissingAreGone(db, s) && i <= |order|
    ensures MissingAreGone(db, db.ClearStep(s, order, fates, i).0)
    decreases |order| - i
  {
    if i < |order| {
      var (s1, r1) := db.DeleteStep(s, order[i], fates(i));
      if r1 == Ok {
        ClearKeepsMissing(db, s1, order, fates, i + 1);
      }
    }
  }

  lemma {:induction false} RunKeepsMissing(db: Database, s: State, ops: seq<Op>)
    requires db.codec.RoundTrips() && Backed(db, s) && MissingAreGone(db, s)
    requires forall i :: 0 <= i < |ops| ==> Usable(db, ops[i])
    ensures Backed(db, db.Run(s, ops)) && MissingAreGone(db, db.Run(s, ops))
    decreases |ops|
  {
    if ops != [] {
      StepUnderFaults(db, s, ops[0]);
      if ops[0].Clear? {
        ClearKeepsMissing(db, s, ops[0].order(s.keys), ops[0].fates, 0);
      }
      RunKeepsMissing(db, db.Exec(s, ops[0]).0, ops[1..]);
    }
  }

  /** What a key turns into when the database is reopened from the list persisted so far. */
  ghost predicate ReopensAs(db: Database, before: State, after: State, k: Key, loaded: bool) {
    if k in before.keys && k in after.keys then db.GetStep(after, k, loaded) == db.GetStep(before, k, loaded)
    else if k in after.keys then Ghost(db, after, k)
    else db.GetStep(after, k, loaded) == Err && (k in before.keys ==> k in after.store)
  }

  /**
  Reopening after every run with failures anywhere: it succeeds and touches no object.
  A key in both lists answers as before; a key only in the persisted list is without an
  object and every operation that needs it fails; a key only in memory, whose put saved
  its object and lost its index write, is gone although its object stays in the store.
  */
  lemma ReopenAfterFaults(db: Database, s: State, ops: seq<Op>)
    requires db.codec.RoundTrips() && Backed(db, s) && MissingAreGone(db, s)
    requires forall i :: 0 <= i < |ops| ==> Usable(db, ops[i])
    ensures var before := db.Run(s, ops);
            var (after, r) := db.Exec(before, Reopen(true));
            && r == Ok && after.store == before.store
            && forall k, loaded :: ReopensAs(db, before, after, k, loaded)
  {
    RunKeepsMissing(db, s, ops);
  }

  /** Such a key: its put answered an error, it is readable until the reopening and then not, its object left behind. */
  lemma UnindexedPutIsLost(db: Database, s: State, key: Key, value: Bytes)
    requires Backed(db, s) && MissingAreGone(db, s) && key != db.name && key !in db.Persisted(s.store).value
    ensures var (before, r) := db.PutStep(s, key, value, true, false);
            var after := db.Exec(before, Reopen(true)).0;
            && r == Err && db.GetStep(before, key, true) == Value(value)
            && db.GetStep(after, key, true) == Err && key in after.store && after.store[key] == value
  {
  }

  // ------------------------------------------- the map behind a run with failures

  /** Memory and objects agree with the abstract map, whatever the persisted list says. */
  ghost predicate Mirrors(db: Database, s: State, m: R.Rows) {
    db.name !in m && s.keys == m.Keys && forall k :: k in m ==> k in s.store && s.store[k] == m[k]
  }

  /** The persisted list is the one in memory. */
  ghost predicate InStep(db: Database, s: State) {
    db.Persisted(s.store) == Some(s.keys)
  }

  /** A put takes effect once its object is saved and a delete once its object is removed, whatever they answer. */
  ghost function FaultyStep(m: R.Rows, op: Op): (R.Rows, Reply) {
    match op
    case Put(key, value, saved, indexed) => (if saved then m[key := value] else m, if saved && indexed then Ok else Err)
    case Get(key, loaded) => (m, if loaded && key in m then Value(m[key]) else Err)
    case Delete(key, fate) =>
      if key in m && fate.removed then (m - {key}, if fate.indexed then Ok else Err) else (m, Err)
    case Reopen(loaded) => (m, if loaded then Ok else Err)
    case List(_, _, _) => (m, if CoveredLoadFails(m.Keys, op) then Err else R.AbstractStep(m, op).1)
    case _ => R.AbstractStep(m, op)
  }

  /** A load fails that the listing makes: that of a key it iterates over and its prefix covers. */
  ghost predicate CoveredLoadFails(keys: set<Key>, op: Op)
    requires op.List?
  {
    exists i :: 0 <= i < |op.order(keys)| && StartsWith(op.order(keys)[i], op.prefix) && !op.loads(i)
  }

  /** Whether the persisted list is known to be in step after an operation. */
  ghost predicate Settles(m: R.Rows, op: Op, settled: bool) {
    match op
    case Put(_, _, saved, indexed) => if saved then indexed else settled
    case Delete(key, fate) => if key in m && fate.removed then fate.indexed else settled
    case _ => settled
  }

  /** The map behind a call under arbitrary failures: exact effect and exact answer. */
  lemma FaultyStepMirrors(db: Database, s: State, m: R.Rows, op: Op, settled: bool)
    requires db.codec.RoundTrips() && Mirrors(db, s, m) && (settled ==> InStep(db, s))
    requires op.Fair() && !op.Clear? && (op.Put? ==> op.key != db.name) && (op.Reopen? && op.loaded ==> settled)
    ensures var (s', r) := db.Exec(s, op);
            && Mirrors(db, s', FaultyStep(m, op).0)
            && (Settles(m, op, settled) ==> InStep(db, s'))
            && r == FaultyStep(m, op).1
            && (forall o :: o != db.name && !((op.Put? || op.Delete?) && o == op.key) ==>
                  R.SameObject(o, s.store, s'.store))
  {
    if op.List? { FaultyListing(db, s, m, op); }
  }

  lemma FaultyListing(db: Database, s: State, m: R.Rows, op: Op)
    requires Mirrors(db, s, m) && op.Fair() && op.List?
    ensures db.Exec(s, op).1 == FaultyStep(m, op).1
  {
    var keys := op.order(s.keys);
    assert keys[..|keys|] == keys;
    ListEffect(db, s, op.prefix, keys, op.loads, |keys|);
    var rows := db.ListStep(s, op.prefix, keys, op.loads, |keys|);
    assert forall j :: 0 <= j < |keys| ==> keys[j] in keys;
    if rows.Some? {
      assert rows.value == map k | k in m && StartsWith(k, op.prefix) :: m[k];
    }
  }
}
