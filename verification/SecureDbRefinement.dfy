/** With no failing storage call, a database is a map, and databases sharing the store do not interfere. */
module SecureDbRefinement {
  import opened Base
  import opened SecureDb

  type Rows = map<Key, Bytes>

  /** Memory, the persisted list and the objects all agree with the abstract map. */
  ghost predicate Refines(db: Database, s: State, m: Rows) {
    && db.name !in m
    && s.keys == m.Keys
    && db.Persisted(s.store) == Some(m.Keys)
    && forall k :: k in m ==> k in s.store && s.store[k] == m[k]
  }

  ghost function AbstractStep(m: Rows, op: Op): (Rows, Reply) {
    match op
    case Put(key, value, _, _) => (m[key := value], Ok)
    case Get(key, _) => (m, if key in m then Value(m[key]) else Err)
    case Delete(key, _) => if key in m then (m - {key}, Ok) else (m, Err)
    case Clear(_, _) => (map[], Ok)
    case List(prefix, _, _) => (m, Entries(map k | k in m && StartsWith(k, prefix) :: m[k]))
    case Reopen(_) => (m, Ok)
  }

  ghost function AbstractRun(m: Rows, ops: seq<Op>): Rows
    decreases |ops|
  {
    if ops == [] then m else AbstractRun(AbstractStep(m, ops[0]).0, ops[1..])
  }

  ghost function AbstractReplies(m: Rows, ops: seq<Op>): seq<Reply>
    decreases |ops|
  {
    if ops == [] then [] else [AbstractStep(m, ops[0]).1] + AbstractReplies(AbstractStep(m, ops[0]).0, ops[1..])
  }

  ghost predicate SameObject(o: Key, before: Store, after: Store) {
    (o in before <==> o in after) && (o in before ==> before[o] == after[o])
  }

  /** The operation is one a failure-free caller may make: it never names the index as a key. */
  ghost predicate Admissible(db: Database, op: Op) {
    op.Fair() && op.Healthy() && (op.Put? ==> op.key != db.name)
  }

  lemma DeleteRefines(db: Database, s: State, m: Rows, key: Key)
    requires db.codec.RoundTrips() && Refines(db, s, m) && key in m
    ensures var (s', r) := db.DeleteStep(s, key, DeleteFate(true, true));
            && r == Ok && Refines(db, s', m - {key})
            && forall o :: o != db.name && o !in m ==> SameObject(o, s.store, s'.store)
  {
  }

  lemma EnumeratesTail(order: seq<Key>, keys: set<Key>)
    requires Enumerates(order, keys) && order != []
    ensures order[0] in keys && Enumerates(order[1..], keys - {order[0]})
  {
  }

  lemma {:induction false} ClearRefines(
    db: Database, s: State, m: Rows, order: seq<Key>, fates: nat -> DeleteFate, i: nat)
    requires db.codec.RoundTrips() && Refines(db, s, m)
    requires i <= |order| && Enumerates(order[i..], m.Keys)
    requires forall j: nat :: fates(j) == DeleteFate(true, true)
    ensures var (s', r) := db.ClearStep(s, order, fates, i);
            && r == Ok && Refines(db, s', map[])
            && forall o :: o != db.name && o !in m ==> SameObject(o, s.store, s'.store)
    decreases |order| - i
  {
    if i == |order| {
      assert m.Keys == {};
    } else {
      var key := order[i];
      EnumeratesTail(order[i..], m.Keys);
      assert order[i..][1..] == order[i + 1..];
      assert (m - {key}).Keys == m.Keys - {key};
      DeleteRefines(db, s, m, key);
      ClearRefines(db, db.DeleteStep(s, key, fates(i)).0, m - {key}, order, fates, i + 1);
    }
  }

  lemma StepRefines(db: Database, s: State, m: Rows, op: Op)
    requires db.codec.RoundTrips() && Refines(db, s, m) && Admissible(db, op)
    ensures var (s', r) := db.Exec(s, op);
            && Refines(db, s', AbstractStep(m, op).0)
            && r == AbstractStep(m, op).1
            && forall o :: o != db.name && o !in m && !(op.Put? && o == op.key) ==> SameObject(o, s.store, s'.store)
  {
    match op
    case Clear(order, fates) =>
      var keys := order(s.keys);
      assert keys[0..] == keys;
      ClearRefines(db, s, m, keys, fates, 0);
    case List(prefix, order, loads) =>
      var keys := order(s.keys);
      assert keys[..|keys|] == keys;
      ListEffect(db, s, prefix, keys, loads, |keys|);
      var rows := db.ListStep(s, prefix, keys, loads, |keys|);
      assert rows.value == map k | k in m && StartsWith(k, prefix) :: m[k];
    case _ =>
  }

  /**
  Over every failure-free run, including reopenings, the database answers as the
  abstract map does, ends in agreement with it in memory and in storage, and
  leaves every object outside its own keys and name alone.
  */
  lemma {:induction false} RunRefines(db: Database, s: State, m: Rows, ops: seq<Op>)
    requires db.codec.RoundTrips() && Refines(db, s, m)
    requires forall i :: 0 <= i < |ops| ==> Admissible(db, ops[i])
    ensures Refines(db, db.Run(s, ops), AbstractRun(m, ops))
    ensures db.Replies(s, ops) == AbstractReplies(m, ops)
    ensures forall o :: o != db.name && o !in m && (forall i :: 0 <= i < |ops| && ops[i].Put? ==> ops[i].key != o) ==>
                          SameObject(o, s.store, db.Run(s, ops).store)
    decreases |ops|
  {
    if ops != [] {
      StepRefines(db, s, m, ops[0]);
      var s1, m1 := db.Exec(s, ops[0]).0, AbstractStep(m, ops[0]).0;
      RunRefines(db, s1, m1, ops[1..]);
      forall o | o != db.name && o !in m && (forall i :: 0 <= i < |ops| && ops[i].Put? ==> ops[i].key != o)
        ensures SameObject(o, s.store, db.Run(s, ops).store)
      {
        assert o !in m1;
        assert forall i :: 0 <= i < |ops[1..]| && ops[1..][i].Put? ==> ops[1..][i].key != o;
      }
    }
  }

  /** Opening a name that holds no object starts an empty database. */
  lemma FreshOpenIsEmpty(db: Database, store: Store)
    requires db.name !in store
    ensures db.ReopenStep(State(store, {}), true).1 == Ok
    ensures Refines(db, db.ReopenStep(State(store, {}), true).0, map[])
  {
  }

  /**
  Opening a name that holds an object: the list it decodes to becomes the one in memory;
  if it does not decode, or cannot be loaded, opening fails. Storage is never touched.
  */
  lemma OpenReadsList(db: Database, s: State, loaded: bool)
    requires db.name in s.store
    ensures var (s', r) := db.Exec(s, Reopen(loaded));
            && s'.store == s.store
            && (r == Ok <==> loaded && db.codec.decode(s.store[db.name]).Some?)
            && (r == Ok ==> Some(s'.keys) == db.codec.decode(s.store[db.name]))
            && (r != Ok ==> r == Err && s' == s)
  {
  }

  /**
  What a key equal to the database's name breaks: a successful `put` can be read
  back exactly when the key is not the name, or the value happens to be the
  serialised key list that `put` then writes over it.
  */
  lemma PutIsReadableIff(db: Database, s: State, key: Key, value: Bytes)
    ensures var s' := db.PutStep(s, key, value, true, true).0;
            db.GetStep(s', key, true) == Value(value) <==> key != db.name || value == db.codec.encode(s.keys + {key})
  {
  }

  // ------------------------------------------------- several databases, one store

  /** Open databases by name, the keys each may use being told apart by `owner`. */
  datatype Family = Family(codec: Codec, owner: Key -> Key)

  datatype Shared = Shared(store: Store, lists: map<Key, set<Key>>)

  datatype Call = Call(db: Key, op: Op)

  ghost function ExecShared(f: Family, w: Shared, c: Call): (Shared, Reply)
    requires c.db in w.lists
  {
    var (s', r) := Database(c.db, f.codec).Exec(State(w.store, w.lists[c.db]), c.op);
    (Shared(s'.store, w.lists[c.db := s'.keys]), r)
  }

  ghost predicate FamilyRefines(f: Family, w: Shared, maps: map<Key, Rows>) {
    && maps.Keys == w.lists.Keys && KeysOwned(f, maps)
    && forall d :: d in maps ==> Refines(Database(d, f.codec), State(w.store, w.lists[d]), maps[d])
  }

  ghost predicate CallAdmissible(f: Family, names: set<Key>, c: Call) {
    && Admissible(Database(c.db, f.codec), c.op)
    && (c.op.Put? ==> f.owner(c.op.key) == c.db && c.op.key !in names)
  }

  ghost function RunShared(f: Family, w: Shared, calls: seq<Call>): (Shared, seq<Reply>)
    requires forall i :: 0 <= i < |calls| ==> calls[i].db in w.lists
    decreases |calls|
  {
    if calls == [] then (w, []) else
    var (w1, r) := ExecShared(f, w, calls[0]);
    assert forall i :: 0 <= i < |calls[1..]| ==> calls[1..][i].db in w1.lists;
    var (w', rs) := RunShared(f, w1, calls[1..]);
    (w', [r] + rs)
  }

  /** The abstract side of an interleaved run: each database's map sees its own calls only. */
  ghost function AbstractShared(maps: map<Key, Rows>, calls: seq<Call>): (map<Key, Rows>, seq<Reply>)
    requires forall i :: 0 <= i < |calls| ==> calls[i].db in maps
    decreases |calls|
  {
    if calls == [] then (maps, []) else
    var (m, r) := AbstractStep(maps[calls[0].db], calls[0].op);
    var maps1 := maps[calls[0].db := m];
    assert forall i :: 0 <= i < |calls[1..]| ==> calls[1..][i].db in maps1;
    var (maps', rs) := AbstractShared(maps1, calls[1..]);
    (maps', [r] + rs)
  }

  /** Every key of every map belongs to its database, and is no database's name. */
  ghost predicate KeysOwned(f: Family, maps: map<Key, Rows>) {
    forall d :: d in maps ==> forall k :: k in maps[d] ==> f.owner(k) == d && k !in maps.Keys
  }

  /** A call on a database steps its own map ... */
  lemma OwnDatabase(f: Family, w: Shared, maps: map<Key, Rows>, c: Call)
    requires f.codec.RoundTrips() && FamilyRefines(f, w, maps)
    requires c.db in w.lists && CallAdmissible(f, w.lists.Keys, c)
    ensures var w' := ExecShared(f, w, c).0;
            Refines(Database(c.db, f.codec), State(w'.store, w'.lists[c.db]), AbstractStep(maps[c.db], c.op).0)
    ensures ExecShared(f, w, c).1 == AbstractStep(maps[c.db], c.op).1
  {
    assert c.db in maps;
    StepRefines(Database(c.db, f.codec), State(w.store, w.lists[c.db]), maps[c.db], c.op);
  }

  /** A call on one database leaves the objects of another alone. */
  lemma OtherDatabase(f: Family, w: Shared, maps: map<Key, Rows>, c: Call, d: Key)
    requires f.codec.RoundTrips() && FamilyRefines(f, w, maps)
    requires c.db in w.lists && CallAdmissible(f, w.lists.Keys, c) && d in maps && d != c.db
    ensures Refines(Database(d, f.codec), State(ExecShared(f, w, c).0.store, w.lists[d]), maps[d])
  {
    var s := State(w.store, w.lists[c.db]);
    StepRefines(Database(c.db, f.codec), s, maps[c.db], c.op);
    var s' := Database(c.db, f.codec).Exec(s, c.op).0;
    assert Refines(Database(d, f.codec), State(w.store, w.lists[d]), maps[d]);
    assert d !in maps[c.db] && SameObject(d, s.store, s'.store);
    forall k | k in maps[d] ensures k in s'.store && s'.store[k] == maps[d][k] {
      assert k != c.db && k !in maps[c.db];
      assert SameObject(k, s.store, s'.store);
    }
  }

  /** ... within its own keys. */
  lemma StepKeysOwned(f: Family, maps: map<Key, Rows>, c: Call)
    requires KeysOwned(f, maps) && c.db in maps && CallAdmissible(f, maps.Keys, c)
    ensures KeysOwned(f, maps[c.db := AbstractStep(maps[c.db], c.op).0])
  {
    var maps' := maps[c.db := AbstractStep(maps[c.db], c.op).0];
    assert maps'.Keys == maps.Keys;
  }

  lemma SharedStep(f: Family, w: Shared, maps: map<Key, Rows>, c: Call)
    requires f.codec.RoundTrips() && FamilyRefines(f, w, maps)
    requires c.db in w.lists && CallAdmissible(f, w.lists.Keys, c)
    ensures FamilyRefines(f, ExecShared(f, w, c).0, maps[c.db := AbstractStep(maps[c.db], c.op).0])
    ensures ExecShared(f, w, c).1 == AbstractStep(maps[c.db], c.op).1
  {
    var maps' := maps[c.db := AbstractStep(maps[c.db], c.op).0];
    var w' := ExecShared(f, w, c).0;
    assert maps'.Keys == w'.lists.Keys == maps.Keys;
    StepKeysOwned(f, maps, c);
    OwnDatabase(f, w, maps, c);
    forall d | d in maps'
      ensures Refines(Database(d, f.codec), State(w'.store, w'.lists[d]), maps'[d])
    {
      if d != c.db { OtherDatabase(f, w, maps, c, d); }
    }
  }

  /**
  Any interleaving of failure-free calls on any number of databases in one store
  answers each call as that database's own map would, and leaves each database
  refining its own map, provided no key is used by two of them and no key is a
  database name.
  */
  lemma {:induction false} InterleavedRunRefines(f: Family, w: Shared, maps: map<Key, Rows>, calls: seq<Call>)
    requires f.codec.RoundTrips() && FamilyRefines(f, w, maps)
    requires forall i :: 0 <= i < |calls| ==> calls[i].db in w.lists && CallAdmissible(f, w.lists.Keys, calls[i])
    ensures FamilyRefines(f, RunShared(f, w, calls).0, AbstractShared(maps, calls).0)
    ensures RunShared(f, w, calls).1 == AbstractShared(maps, calls).1
    decreases |calls|
  {
    if calls != [] {
      SharedStep(f, w, maps, calls[0]);
      var w1 := ExecShared(f, w, calls[0]).0;
      assert w1.lists.Keys == w.lists.Keys;
      var d := calls[0].db;
      InterleavedRunRefines(f, w1, maps[d := AbstractStep(maps[d], calls[0].op).0], calls[1..]);
    }
  }
}
