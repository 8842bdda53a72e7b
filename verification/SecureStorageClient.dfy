/** `SecureStorageClient` in place, proved against the steps of `SecureClient`. */
module SecureStorageClient {
  import opened Base
  import opened SecureDb
  import opened Storable
  import opened SecureClient
  import S = SecureStorageDb

  class Client<K(==), V> {
    const schema: Schema<K, V>
    const db: S.Db

    constructor (schema: Schema<K, V>, db: S.Db)
      ensures this.schema == schema && this.db == db
    {
      this.schema, this.db := schema, db;
    }

    method Get(table: TableName, id: K, loaded: bool) returns (r: Option<V>)
      ensures (db.Now(), match r case Some(v) => Row(v) case None => Failed)
              == ClientStep(schema, db.Model(), db.Now(), GetRow(table, id, loaded))
    {
      var bytes := db.Get(schema.keyOf(RowId(table, id)), loaded);
      match bytes {
        case Some(data) => r := schema.deserialize(table, data);
        case None => r := None;
      }
    }

    method Put(table: TableName, value: V, saved: bool, indexed: bool) returns (ok: bool)
      modifies db, db.storage
      ensures (db.Now(), if ok then Done else Failed)
              == ClientStep(schema, db.Model(), old(db.Now()), PutRow(table, value, saved, indexed))
    {
      var key := schema.keyOf(RowId(table, schema.uniqueId(table, value)));
      ok := db.Put(key, schema.serialize(table, value), saved, indexed);
    }

    method DeleteEntry(table: TableName, id: K, fate: DeleteFate) returns (ok: bool)
      modifies db, db.storage
      ensures (db.Now(), if ok then Done else Failed)
              == ClientStep(schema, db.Model(), old(db.Now()), ClientOp.DeleteEntry(table, id, fate))
    {
      ok := db.Delete(schema.keyOf(RowId(table, id)), fate);
    }

    /** `order` and `rowOrder` are how the key list and the listed rows are iterated. */
    method ListEntries(table: TableName, order: Order, rowOrder: Order, loads: nat -> bool)
      returns (r: Option<map<K, V>>)
      requires ClientOp<K, V>.ListEntries(table, order, rowOrder, loads).Fair()
      ensures (db.Now(), match r case Some(rows) => RowsOf(rows) case None => Failed)
              == ClientStep(schema, db.Model(), db.Now(), ClientOp.ListEntries(table, order, rowOrder, loads))
    {
      var listed := db.ListEntriesWithPrefix(table, order(db.keyList), loads);
      match listed {
        case Some(rows) => r := DecodeRows(table, rows, rowOrder(rows.Keys));
        case None => r := None;
      }
    }

    method DecodeRows(table: TableName, rows: map<Key, Bytes>, order: seq<Key>) returns (r: Option<map<K, V>>)
      requires forall k :: k in order ==> k in rows
      ensures r == Decoded(schema, table, rows, order, |order|)
    {
      var result: map<K, V> := map[];
      var i := 0;
      while i < |order|
        invariant 0 <= i <= |order|
        invariant Decoded(schema, table, rows, order, i) == Some(result)
      {
        assert order[i] in order;
        match schema.deserialize(table, rows[order[i]]) {
          case Some(value) => result := result[schema.uniqueId(table, value) := value];
          case None =>
            DecodeFailureSticks(schema, table, rows, order, i + 1, |order|);
            return None;
        }
        i := i + 1;
      }
      r := Some(result);
    }
  }

  lemma {:induction false} DecodeFailureSticks<K, V>(
    schema: Schema<K, V>, t: TableName, rows: map<Key, Bytes>, order: seq<Key>, i: nat, j: nat)
    requires i <= j <= |order| && (forall k :: k in order ==> k in rows) && Decoded(schema, t, rows, order, i).None?
    ensures Decoded(schema, t, rows, order, j).None?
  {
    if i < j {
      DecodeFailureSticks(schema, t, rows, order, i, j - 1);
    }
  }
}
