/** `SecureStorageDb` over the private storage, in place, proved against the steps of `SecureDb`. */
module SecureStorageDb {
  import opened Base
  import opened SecureDb

  /** The persistent objects of one TA. The last argument of each call is what the TEE answers. */
  class PrivateStorage {
    var objects: Store

    constructor ()
      ensures objects == map[]
    {
      objects := map[];
    }

    method Save(id: Key, data: Bytes, saved: bool) returns (ok: bool)
      modifies this
      ensures ok == saved && objects == if saved then old(objects)[id := data] else old(objects)
    {
      ok := saved;
      if saved {
        objects := objects[id := data];
      }
    }

    /** `None` is a failed load; `Some(None)` an object that does not exist. */
    method Load(id: Key, loaded: bool) returns (r: Option<Option<Bytes>>)
      ensures r == if !loaded then None else if id in objects then Some(Some(objects[id])) else Some(None)
    {
      if !loaded {
        r := None;
      } else if id in objects {
        r := Some(Some(objects[id]));
      } else {
        r := Some(None);
      }
    }

    method Remove(id: Key, removed: bool) returns (ok: bool)
      modifies this
      ensures ok == (removed && id in old(objects))
      ensures objects == if ok then old(objects) - {id} else old(objects)
    {
      ok := removed && id in objects;
      if ok {
        objects := objects - {id};
      }
    }
  }

  class Db {
    const name: Key
    const codec: Codec
    const storage: PrivateStorage
    var keyList: set<Key>

    ghost function Model(): Database { Database(name, codec) }

    ghost function Now(): State
      reads this, storage
    {
      State(storage.objects, keyList)
    }

    constructor (name: Key, codec: Codec, storage: PrivateStorage, keyList: set<Key>)
      ensures this.name == name && this.codec == codec && this.storage == storage && this.keyList == keyList
    {
      this.name, this.codec, this.storage, this.keyList := name, codec, storage, keyList;
    }

    /** Opening anew finds exactly what `Reopen` does, and creates nothing in storage. */
    static method Open(name: Key, codec: Codec, storage: PrivateStorage, loaded: bool) returns (db: Db?)
      ensures unchanged(storage) && (db != null ==> fresh(db))
      ensures var (s, r) := Database(name, codec).ReopenStep(State(storage.objects, {}), loaded);
              if r != Ok then db == null
              else db != null && db.Model() == Database(name, codec) && db.storage == storage && db.Now() == s
    {
      db := null;
      var data := storage.Load(name, loaded);
      match data {
        case None => return;
        case Some(None) => db := new Db(name, codec, storage, {});
        case Some(Some(bytes)) =>
          match codec.decode(bytes) {
            case Some(keys) => db := new Db(name, codec, storage, keys);
            case None => return;
          }
      }
    }

    method StoreKeyList(indexed: bool) returns (ok: bool)
      modifies storage
      ensures (Now(), if ok then Ok else Err) == Model().StoreKeyList(old(Now()), indexed)
    {
      ok := storage.Save(name, codec.encode(keyList), indexed);
    }

    method Put(key: Key, value: Bytes, saved: bool, indexed: bool) returns (ok: bool)
      modifies this, storage
      ensures (Now(), if ok then Ok else Err) == Model().PutStep(old(Now()), key, value, saved, indexed)
    {
      ok := storage.Save(key, value, saved);
      if !ok { return; }
      keyList := keyList + {key};
      ok := StoreKeyList(indexed);
    }

    method Get(key: Key, loaded: bool) returns (r: Option<Bytes>)
      ensures (match r case Some(v) => Value(v) case None => Err) == Model().GetStep(Now(), key, loaded)
    {
      if key !in keyList { return None; }
      var data := storage.Load(key, loaded);
      match data {
        case Some(Some(bytes)) => r := Some(bytes);
        case _ => r := None;
      }
    }

    method Delete(key: Key, fate: DeleteFate) returns (ok: bool)
      modifies this, storage
      ensures (Now(), if ok then Ok else Err) == Model().DeleteStep(old(Now()), key, fate)
    {
      if key !in keyList { return false; }
      ok := storage.Remove(key, fate.removed);
      if !ok { return; }
      keyList := keyList - {key};
      ok := StoreKeyList(fate.indexed);
    }

    /** `order` is how the clone of the key list is iterated. */
    method Clear(order: seq<Key>, fates: nat -> DeleteFate) returns (ok: bool)
      requires Enumerates(order, keyList)
      modifies this, storage
      ensures (Now(), if ok then Ok else Err) == Model().ClearStep(old(Now()), order, fates, 0)
    {
      var i := 0;
      while i < |order|
        invariant 0 <= i <= |order|
        invariant Model().ClearStep(Now(), order, fates, i) == Model().ClearStep(old(Now()), order, fates, 0)
      {
        ok := Delete(order[i], fates(i));
        if !ok { return; }
        i := i + 1;
      }
      ok := true;
    }

    method ListEntriesWithPrefix(prefix: Key, order: seq<Key>, loads: nat -> bool) returns (r: Option<map<Key, Bytes>>)
      requires Enumerates(order, keyList)
      ensures r == Model().ListStep(Now(), prefix, order, loads, |order|)
      ensures r.Some? <==>
              forall j :: 0 <= j < |order| && StartsWith(order[j], prefix) ==> order[j] in storage.objects && loads(j)
      ensures r.Some? ==>
                r.value == map k | k in keyList && k in storage.objects && StartsWith(k, prefix) :: storage.objects[k]
    {
      ListEffect(Model(), Now(), prefix, order, loads, |order|);
      assert order[..|order|] == order;
      var result: map<Key, Bytes> := map[];
      var i := 0;
      while i < |order|
        invariant 0 <= i <= |order|
        invariant Model().ListStep(Now(), prefix, order, loads, i) == Some(result)
      {
        if StartsWith(order[i], prefix) {
          var value := Get(order[i], loads(i));
          if value.None? {
            ListFailureSticks(Model(), Now(), prefix, order, loads, i + 1, |order|);
            return None;
          }
          result := result[order[i] := value.value];
        }
        i := i + 1;
      }
      r := Some(result);
    }
  }

  lemma {:induction false} ListFailureSticks(
    db: Database, s: State, prefix: Key, order: seq<Key>, loads: nat -> bool, i: nat, j: nat)
    requires i <= j <= |order| && db.ListStep(s, prefix, order, loads, i).None?
    ensures db.ListStep(s, prefix, order, loads, j).None?
  {
    if i < j {
      ListFailureSticks(db, s, prefix, order, loads, i, j - 1);
    }
  }
}
