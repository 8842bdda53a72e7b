/**
Model of `secure_db`: a key list kept in memory and, serialised, under the
database's own name, next to one persistent object per key. All objects of a TA
share one namespace. Every foreign storage call may fail; a failing call leaves
the store as it was.
*/
module SecureDb {
  import opened Base

  type Key = string
  type Store = map<Key, Bytes>

  predicate StartsWith(key: Key, prefix: Key) { prefix <= key }

  /** The serialiser of the key list. */
  datatype Codec = Codec(encode: set<Key> -> Bytes, decode: Bytes -> Option<set<Key>>) {
    ghost predicate RoundTrips() {
      forall keys: set<Key> :: decode(encode(keys)) == Some(keys)
    }
  }

  /** The order in which a hash set happens to be iterated. */
  ghost predicate Enumerates(order: seq<Key>, keys: set<Key>) {
    && (forall i, j :: 0 <= i < j < |order| ==> order[i] != order[j])
    && (forall k :: k in order <==> k in keys)
  }

  /** What the two storage calls of one `delete` will answer. */
  datatype DeleteFate = DeleteFate(removed: bool, indexed: bool)

  datatype State = State(store: Store, keys: set<Key>)

  datatype Reply = Ok | Err | Value(bytes: Bytes) | Entries(rows: map<Key, Bytes>)

  /** A call, together with the outcome of each storage call it may make. */
  datatype Op =
    | Put(key: Key, value: Bytes, saved: bool, indexed: bool)
    | Get(key: Key, loaded: bool)
    | Delete(key: Key, fate: DeleteFate)
    | Clear(order: set<Key> -> seq<Key>, fates: nat -> DeleteFate)
    | List(prefix: Key, order: set<Key> -> seq<Key>, loads: nat -> bool)
    | Reopen(loaded: bool)
  {
    ghost predicate Fair() {
      (Clear? || List?) ==> forall keys: set<Key> :: Enumerates(order(keys), keys)
    }

    /** No storage call made by this operation fails. */
    ghost predicate Healthy() {
      match this
      case Put(_, _, saved, indexed) => saved && indexed
      case Get(_, loaded) => loaded
      case Delete(_, fate) => fate.removed && fate.indexed
      case Clear(_, fates) => forall i: nat :: fates(i) == DeleteFate(true, true)
      case List(_, _, loads) => forall i: nat :: loads(i)
      case Reopen(loaded) => loaded
    }
  }

  // ---------------------------------------------------------------- operations

  datatype Database = Database(name: Key, codec: Codec) {

    ghost function StoreKeyList(s: State, indexed: bool): (State, Reply) {
      if indexed then (s.(store := s.store[name := codec.encode(s.keys)]), Ok) else (s, Err)
    }

    ghost function PutStep(s: State, key: Key, value: Bytes, saved: bool, indexed: bool): (State, Reply) {
      if !saved then (s, Err)
      else StoreKeyList(State(s.store[key := value], s.keys + {key}), indexed)
    }

    ghost function GetStep(s: State, key: Key, loaded: bool): Reply {
      if key in s.keys && loaded && key in s.store then Value(s.store[key]) else Err
    }

    ghost function DeleteStep(s: State, key: Key, fate: DeleteFate): (State, Reply) {
      if key !in s.keys || key !in s.store || !fate.removed then (s, Err)
      else StoreKeyList(State(s.store - {key}, s.keys - {key}), fate.indexed)
    }

    /** `clear` from the `i`-th key of the iteration on. */
    ghost function ClearStep(s: State, order: seq<Key>, fates: nat -> DeleteFate, i: nat): (State, Reply)
      requires i <= |order|
      decreases |order| - i
    {
      if i == |order| then (s, Ok) else
      var (s', r) := DeleteStep(s, order[i], fates(i));
      if r == Ok then ClearStep(s', order, fates, i + 1) else (s', Err)
    }

    /** The rows `list_entries_with_prefix` has collected after `i` keys, if no load failed. */
    ghost function ListStep(s: State, prefix: Key, order: seq<Key>, loads: nat -> bool, i: nat): Option<map<Key, Bytes>>
      requires i <= |order|
    {
      if i == 0 then Some(map[]) else
      var rows := ListStep(s, prefix, order, loads, i - 1);
      var key := order[i - 1];
      if rows.None? || !StartsWith(key, prefix) then rows else
      match GetStep(s, key, loads(i - 1))
      case Value(v) => Some(rows.value[key := v])
      case _ => None
    }

    /** The key list found under the database's name; a missing object is an empty list. */
    ghost function Persisted(store: Store): Option<set<Key>> {
      if name in store then codec.decode(store[name]) else Some({})
    }

    ghost function ReopenStep(s: State, loaded: bool): (State, Reply) {
      if loaded && Persisted(s.store).Some? then (s.(keys := Persisted(s.store).value), Ok) else (s, Err)
    }

    ghost function Exec(s: State, op: Op): (State, Reply) {
      match op
      case Put(key, value, saved, indexed) => PutStep(s, key, value, saved, indexed)
      case Get(key, loaded) => (s, GetStep(s, key, loaded))
      case Delete(key, fate) => DeleteStep(s, key, fate)
      case Clear(order, fates) => ClearStep(s, order(s.keys), fates, 0)
      case List(prefix, order, loads) =>
        var keys := order(s.keys);
        (s, match ListStep(s, prefix, keys, loads, |keys|) case Some(rows) => Entries(rows) case None => Err)
      case Reopen(loaded) => ReopenStep(s, loaded)
    }

    ghost function Run(s: State, ops: seq<Op>): State
      decreases |ops|
    {
      if ops == [] then s else Run(Exec(s, ops[0]).0, ops[1..])
    }

    ghost function Replies(s: State, ops: seq<Op>): seq<Reply>
      decreases |ops|
    {
      if ops == [] then [] else [Exec(s, ops[0]).1] + Replies(Exec(s, ops[0]).0, ops[1..])
    }
  }

  // -------------------------------------------------- loops, characterised once

  /** `clear` removes, object and entry together, the keys before the one it stops at. */
  lemma {:induction false} ClearEffect(db: Database, s: State, order: seq<Key>, fates: nat -> DeleteFate, i: nat)
    requires i <= |order| && db.name !in order
    requires forall a, b :: i <= a < b < |order| ==> order[a] != order[b]
    ensures var (s', r) := db.ClearStep(s, order, fates, i);
            && s'.keys <= s.keys && s'.store.Keys <= s.store.Keys + {db.name}
            && (forall k :: k in s.keys && k !in s'.keys ==> k in order[i..])
            && (forall k :: k in s.store && k != db.name ==> (k in s'.store <==> k !in s.keys || k in s'.keys))
            && (forall k :: k in s'.store && k != db.name ==> s'.store[k] == s.store[k])
            && (r == Ok ==> forall k :: k in order[i..] ==> k !in s'.keys)
            && (r == Ok || r == Err)
    decreases |order| - i
  {
    if i < |order| {
      var (s1, r1) := db.DeleteStep(s, order[i], fates(i));
      assert order[i..] == [order[i]] + order[i + 1..];
      if r1 == Ok {
        ClearEffect(db, s1, order, fates, i + 1);
      }
    }
  }

  /** A listing succeeds exactly when every covered key can be loaded, and then holds exactly those rows. */
  lemma {:induction false} ListEffect(db: Database, s: State, prefix: Key, order: seq<Key>, loads: nat -> bool, i: nat)
    requires i <= |order| && forall k :: k in order ==> k in s.keys
    ensures var rows := db.ListStep(s, prefix, order, loads, i);
            && (rows.Some? <==>
                  forall j :: 0 <= j < i && StartsWith(order[j], prefix) ==> order[j] in s.store && loads(j))
            && (rows.Some? ==>
                  && (forall k :: k in rows.value <==> k in order[..i] && StartsWith(k, prefix))
                  && (forall k :: k in rows.value ==> k in s.store && rows.value[k] == s.store[k]))
  {
    if i > 0 {
      ListEffect(db, s, prefix, order, loads, i - 1);
      assert order[..i] == order[..i - 1] + [order[i - 1]];
      assert order[i - 1] in order;
    }
  }
}
