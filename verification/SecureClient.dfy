/** Storage keys of typed rows: the table name, the separator, the printed id. */
module Storable {

  const SEPARATOR := '#'

  type TableName = s: string | SEPARATOR !in s witness ""

  function StorageKey(table: string, id: string): string {
    table + [SEPARATOR] + id
  }

  /** A key as it stands in storage. */
  lemma StorageKeyText()
    ensures StorageKey("User", "7") == "User#7"
  {
  }

  lemma StorageKeyInjective(t: TableName, i: string, u: TableName, j: string)
    requires StorageKey(t, i) == StorageKey(u, j)
    ensures t == u && i == j
  {
    var a, b := StorageKey(t, i), StorageKey(u, j);
    assert forall n :: 0 <= n < |t| ==> a[n] == t[n] != SEPARATOR;
    assert forall n :: 0 <= n < |u| ==> b[n] == u[n] != SEPARATOR;
    assert a[|t|] == SEPARATOR && b[|u|] == SEPARATOR;
    assert |t| == |u|;
    assert t == a[..|t|] && u == b[..|u|];
    assert i == a[|t| + 1..] && j == b[|u| + 1..];
  }

  /** A table name is a prefix of a row's key exactly when it is a prefix of that row's table name. */
  lemma PrefixSeesTable(t: TableName, u: TableName, j: string)
    ensures t <= StorageKey(u, j) <==> t <= u
  {
    var k := StorageKey(u, j);
    assert k[|u|] == SEPARATOR && k[..|u|] == u;
    if t <= k {
      assert forall n :: 0 <= n < |t| ==> t[n] == k[n];
      assert |t| <= |u|;
      assert t == k[..|t|] == u[..|t|];
    }
  }

  /** A separator-free database name is never the key of a row. */
  lemma NameIsNoRow(name: TableName, t: TableName, i: string)
    ensures name != StorageKey(t, i)
  {
  }
}

/** `SecureStorageClient`: typed tables on top of one database; every storage call may fail. */
module SecureClient {
  import opened Base
  import opened SecureDb
  import opened Storable
  import F = SecureDbFaults
  import R = SecureDbRefinement

  /** A row is identified by its table and the id its value carries. */
  datatype RowId<+K> = RowId(table: TableName, id: K)

  /**
  All `Storable` types at once. `K` and `V` hold the ids and values of every table;
  `hasId` and `belongs` say which of them are of the table's own types.
  */
  datatype Schema<!K, !V> = Schema(
    hasId: (TableName, K) -> bool,
    belongs: (TableName, V) -> bool,
    keyOf: RowId<K> -> Key,
    uniqueId: (TableName, V) -> K,
    serialize: (TableName, V) -> Bytes,
    deserialize: (TableName, Bytes) -> Option<V>)

  ghost predicate Has<K, V>(schema: Schema<K, V>, r: RowId<K>) {
    schema.hasId(r.table, r.id)
  }

  ghost predicate Injective<K(!new), V>(schema: Schema<K, V>) {
    forall r, r' :: Has(schema, r) && Has(schema, r') && schema.keyOf(r) == schema.keyOf(r') ==> r == r'
  }

  ghost predicate PrefixesSeeTables<K(!new), V>(schema: Schema<K, V>) {
    forall t: TableName, r :: StartsWith(schema.keyOf(r), t) <==> StartsWith(r.table, t)
  }

  /** A table's own values carry ids of the table and are read back as written. */
  ghost predicate RoundTrips<K, V(!new)>(schema: Schema<K, V>) {
    forall t: TableName, v :: schema.belongs(t, v) ==>
                                && schema.hasId(t, schema.uniqueId(t, v))
                                && schema.deserialize(t, schema.serialize(t, v)) == Some(v)
  }

  /** What the client relies on: keys tell rows apart, prefixes see table names, own values are read back. */
  ghost predicate Lawful<K(!new), V(!new)>(schema: Schema<K, V>) {
    Injective(schema) && PrefixesSeeTables(schema) && RoundTrips(schema)
  }

  /** No row's key is the name. */
  ghost predicate NoRowNamed<K(!new), V>(schema: Schema<K, V>, name: Key) {
    forall r :: Has(schema, r) ==> schema.keyOf(r) != name
  }

  function WithStorageKeys<K, V>(schema: Schema<K, V>, printed: (TableName, K) -> string): Schema<K, V> {
    schema.(keyOf := (r: RowId<K>) => StorageKey(r.table, printed(r.table, r.id)))
  }

  /** Storage keys are lawful whenever each table prints its ids injectively; a separator-free name is no row's key. */
  lemma StorageKeysLawful<K(!new), V(!new)>(
    schema: Schema<K, V>, printed: (TableName, K) -> string, name: TableName)
    requires RoundTrips(schema)
    requires forall t: TableName, i, j ::
               schema.hasId(t, i) && schema.hasId(t, j) && printed(t, i) == printed(t, j) ==> i == j
    ensures Lawful(WithStorageKeys(schema, printed)) && NoRowNamed(WithStorageKeys(schema, printed), name)
  {
    var keyed := WithStorageKeys(schema, printed);
    forall r, r' | Has(keyed, r) && Has(keyed, r') && keyed.keyOf(r) == keyed.keyOf(r') ensures r == r' {
      StorageKeyInjective(r.table, printed(r.table, r.id), r'.table, printed(r'.table, r'.id));
    }
    forall t: TableName, r ensures StartsWith(keyed.keyOf(r), t) <==> StartsWith(r.table, t) {
      PrefixSeesTable(t, r.table, printed(r.table, r.id));
    }
    forall r ensures keyed.keyOf(r) != name {
      NameIsNoRow(name, r.table, printed(r.table, r.id));
    }
  }

  // ------------------------------------------------------------------ operations

  /** How a set of keys happens to be iterated. */
  type Order = set<Key> -> seq<Key>

  /** A client call, together with the outcome of each storage call it may make. */
  datatype ClientOp<+K, +V> =
    | PutRow(table: TableName, value: V, saved: bool, indexed: bool)
    | GetRow(table: TableName, id: K, loaded: bool)
    | DeleteEntry(table: TableName, id: K, fate: DeleteFate)
    | ListEntries(table: TableName, order: Order, rowOrder: Order, loads: nat -> bool)
    | ReopenDb(loaded: bool)
  {
    ghost predicate Fair() {
      ListEntries? ==> forall keys: set<Key> :: Enumerates(order(keys), keys) && Enumerates(rowOrder(keys), keys)
    }

    /** No storage call made by this operation fails. */
    ghost predicate Healthy() {
      match this
      case PutRow(_, _, saved, indexed) => saved && indexed
      case GetRow(_, _, loaded) => loaded
      case DeleteEntry(_, _, fate) => fate.removed && fate.indexed
      case ListEntries(_, _, _, loads) => forall i: nat :: loads(i)
      case ReopenDb(loaded) => loaded
    }
  }

  datatype ClientReply<+K, +V> = Done | Failed | Row(value: V) | RowsOf(rows: map<K, V>)

  /** The ids and values a caller names are of the table's types. */
  ghost predicate Typed<K, V>(schema: Schema<K, V>, op: ClientOp<K, V>) {
    match op
    case PutRow(t, value, _, _) => schema.belongs(t, value)
    case GetRow(t, id, _) => schema.hasId(t, id)
    case DeleteEntry(t, id, _) => schema.hasId(t, id)
    case _ => true
  }

  /** The typed map `list_entries` has built after `i` of the listed rows, if all decoded. */
  ghost function Decoded<K, V>(schema: Schema<K, V>, t: TableName, rows: R.Rows, order: seq<Key>, i: nat)
    : Option<map<K, V>>
    requires i <= |order| && forall k :: k in order ==> k in rows
  {
    if i == 0 then Some(map[]) else
    var acc := Decoded(schema, t, rows, order, i - 1);
    assert order[i - 1] in order;
    match schema.deserialize(t, rows[order[i - 1]])
    case Some(v) => if acc.Some? then Some(acc.value[schema.uniqueId(t, v) := v]) else None
    case None => None
  }

  /** The database call a client call makes. */
  ghost function DbOp<K, V>(schema: Schema<K, V>, op: ClientOp<K, V>): Op {
    match op
    case PutRow(t, value, saved, indexed) =>
      Put(schema.keyOf(RowId(t, schema.uniqueId(t, value))), schema.serialize(t, value), saved, indexed)
    case GetRow(t, id, loaded) => Get(schema.keyOf(RowId(t, id)), loaded)
    case DeleteEntry(t, id, fate) => Delete(schema.keyOf(RowId(t, id)), fate)
    case ListEntries(t, order, _, loads) => List(t, order, loads)
    case ReopenDb(loaded) => Reopen(loaded)
  }

  /** What the client makes of the database's answer. */
  ghost function Interpret<K, V>(schema: Schema<K, V>, op: ClientOp<K, V>, reply: Reply): ClientReply<K, V>
    requires op.Fair()
  {
    match reply
    case Ok => Done
    case Value(bytes) =>
      if !op.GetRow? then Failed else
      (match schema.deserialize(op.table, bytes) case Some(v) => Row(v) case None => Failed)
    case Entries(rows) =>
      if !op.ListEntries? then Failed else
      var order := op.rowOrder(rows.Keys);
      (match Decoded(schema, op.table, rows, order, |order|) case Some(m) => RowsOf(m) case None => Failed)
    case Err => Failed
  }

  ghost function ClientStep<K, V>(schema: Schema<K, V>, db: Database, s: State, op: ClientOp<K, V>)
    : (State, ClientReply<K, V>)
    requires op.Fair()
  {
    var (s', r) := db.Exec(s, DbOp(schema, op));
    (s', Interpret(schema, op, r))
  }

  /** Whatever is stored: a get answers what the stored bytes decode to, and fails if there are none or they do not. */
  lemma GetAnswers<K, V>(schema: Schema<K, V>, db: Database, s: State, t: TableName, id: K, loaded: bool)
    ensures var key, (s', r) := schema.keyOf(RowId(t, id)), ClientStep(schema, db, s, GetRow(t, id, loaded));
            && s' == s
            && (r == Failed <==>
                  !loaded || key !in s.keys || key !in s.store || schema.deserialize(t, s.store[key]).None?)
            && (r != Failed ==> r.Row? && schema.deserialize(t, s.store[key]) == Some(r.value))
  {
  }

  // ------------------------------------------------------------ one map per table

  type Tables<!K(==), !V> = map<RowId<K>, V>

  ghost function TableOf<K, V>(a: Tables<K, V>, t: TableName): map<K, V> {
    map r | r in a && r.table == t :: r.id := a[r]
  }

  /** The objects that hold these rows. */
  ghost function Stored<K, V>(schema: Schema<K, V>, a: Tables<K, V>): R.Rows {
    var keys := set r | r in a :: schema.keyOf(r);
    map k | k in keys :: var r :| r in a && schema.keyOf(r) == k; schema.serialize(r.table, a[r])
  }

  /** The stored rows whose keys have the prefix. */
  ghost function Listed(m: R.Rows, prefix: Key): R.Rows {
    map k | k in m && StartsWith(k, prefix) :: m[k]
  }

  /** The listing makes a load that fails. */
  ghost predicate LoadFails<K, V>(schema: Schema<K, V>, a: Tables<K, V>, op: ClientOp<K, V>)
    requires op.ListEntries?
  {
    F.CoveredLoadFails(Stored(schema, a).Keys, DbOp(schema, op))
  }

  /** A put takes effect once its object is saved and a delete once its object is removed, whatever they answer. */
  ghost function TableStep<K, V>(schema: Schema<K, V>, a: Tables<K, V>, op: ClientOp<K, V>)
    : (Tables<K, V>, ClientReply<K, V>)
  {
    match op
    case PutRow(t, value, saved, indexed) =>
      (if saved then a[RowId(t, schema.uniqueId(t, value)) := value] else a, if saved && indexed then Done else Failed)
    case GetRow(t, id, loaded) => (a, if loaded && RowId(t, id) in a then Row(a[RowId(t, id)]) else Failed)
    case DeleteEntry(t, id, fate) =>
      if RowId(t, id) in a && fate.removed then (a - {RowId(t, id)}, if fate.indexed then Done else Failed)
      else (a, Failed)
    case ListEntries(t, _, _, _) => (a, RowsOf(TableOf(a, t)))
    case ReopenDb(loaded) => (a, if loaded then Done else Failed)
  }

  /** Whether the persisted key list is known to be the current one after a call. */
  ghost predicate Settles<K, V>(a: Tables<K, V>, op: ClientOp<K, V>, settled: bool) {
    match op
    case PutRow(_, _, saved, indexed) => if saved then indexed else settled
    case DeleteEntry(t, id, fate) => if RowId(t, id) in a && fate.removed then fate.indexed else settled
    case _ => settled
  }

  ghost predicate IsRow<K, V>(schema: Schema<K, V>, a: Tables<K, V>, k: Key) {
    exists r :: r in a && schema.keyOf(r) == k
  }

  /** Every row is of its table's types and stored, serialised, under its own key; nothing else is stored. */
  ghost predicate Represents<K, V>(schema: Schema<K, V>, m: R.Rows, a: Tables<K, V>) {
    && (forall r :: r in a ==>
          && Has(schema, r) && schema.belongs(r.table, a[r])
          && schema.uniqueId(r.table, a[r]) == r.id
          && schema.keyOf(r) in m
          && m[schema.keyOf(r)] == schema.serialize(r.table, a[r]))
    && (forall k :: k in m ==> IsRow(schema, a, k))
  }

  lemma RepresentsStored<K(!new), V>(schema: Schema<K, V>, m: R.Rows, a: Tables<K, V>)
    requires Represents(schema, m, a)
    ensures m == Stored(schema, a)
  {
    forall k ensures k in m <==> k in Stored(schema, a) {
      if k in m {
        var r :| r in a && schema.keyOf(r) == k;
      }
    }
  }

  /** No table whose name properly extends `t` holds a row. */
  ghost predicate NoExtension<K, V>(a: Tables<K, V>, t: TableName) {
    forall r :: r in a && StartsWith(r.table, t) ==> r.table == t
  }

  lemma PutRepresents<K(!new), V(!new)>(schema: Schema<K, V>, m: R.Rows, a: Tables<K, V>, t: TableName, v: V)
    requires Injective(schema) && RoundTrips(schema) && Represents(schema, m, a) && schema.belongs(t, v)
    ensures var r := RowId(t, schema.uniqueId(t, v));
            Represents(schema, m[schema.keyOf(r) := schema.serialize(t, v)], a[r := v])
  {
    var r := RowId(t, schema.uniqueId(t, v));
    assert Has(schema, r);
    var m', a' := m[schema.keyOf(r) := schema.serialize(t, v)], a[r := v];
    forall k | k in m' ensures IsRow(schema, a', k) {
      if k == schema.keyOf(r) {
        assert r in a';
      } else {
        var x :| x in a && schema.keyOf(x) == k;
        assert x in a';
      }
    }
  }

  lemma DeleteRepresents<K(!new), V>(schema: Schema<K, V>, m: R.Rows, a: Tables<K, V>, r: RowId<K>)
    requires Injective(schema) && Represents(schema, m, a) && Has(schema, r)
    ensures Represents(schema, m - {schema.keyOf(r)}, a - {r})
    ensures schema.keyOf(r) in m <==> r in a
  {
    forall k | k in m - {schema.keyOf(r)} ensures IsRow(schema, a - {r}, k) {
      var x :| x in a && schema.keyOf(x) == k;
      assert x in a - {r};
    }
  }

  // ------------------------------------------------------------------- listings

  ghost predicate OwnRow<K, V>(schema: Schema<K, V>, a: Tables<K, V>, t: TableName, k: Key) {
    exists r :: r in a && r.table == t && schema.keyOf(r) == k
  }

  /**
  The storage listing behind `list_entries` is exactly the table's rows if and
  only if no row of a table whose name properly extends this one is stored: the
  prefix handed down omits the separator.
  */
  lemma ListingExactIff<K(!new), V>(schema: Schema<K, V>, m: R.Rows, a: Tables<K, V>, t: TableName)
    requires Injective(schema) && PrefixesSeeTables(schema) && Represents(schema, m, a)
    ensures (forall k :: k in Listed(m, t) <==> OwnRow(schema, a, t, k)) <==> NoExtension(a, t)
  {
    forall k | OwnRow(schema, a, t, k) ensures k in Listed(m, t) {
    }
    if NoExtension(a, t) {
      forall k | k in Listed(m, t) ensures OwnRow(schema, a, t, k) {
        var r :| r in a && schema.keyOf(r) == k;
      }
    } else {
      var r :| r in a && StartsWith(r.table, t) && r.table != t;
      assert schema.keyOf(r) in Listed(m, t);
    }
  }

  /** Bytes that decode, under table `t`, to a row the table has. */
  ghost predicate ReadsAsOwn<K, V>(schema: Schema<K, V>, a: Tables<K, V>, t: TableName, bytes: Bytes) {
    match schema.deserialize(t, bytes)
    case Some(v) => RowId(t, schema.uniqueId(t, v)) in a && a[RowId(t, schema.uniqueId(t, v))] == v
    case None => false
  }

  /** Every row of a table whose name properly extends `t` decodes, under `t`, to a row `t` has. */
  ghost predicate Harmless<K, V>(schema: Schema<K, V>, a: Tables<K, V>, t: TableName) {
    forall r :: r in a && StartsWith(r.table, t) && r.table != t ==>
                  ReadsAsOwn(schema, a, t, schema.serialize(r.table, a[r]))
  }

  /** Rows that all read as the table's own rebuild nothing but rows of the table. */
  lemma {:induction false} DecodedWithin<K, V>(
    schema: Schema<K, V>, a: Tables<K, V>, t: TableName, rows: R.Rows, order: seq<Key>, i: nat)
    requires i <= |order| && forall k :: k in order ==> k in rows && ReadsAsOwn(schema, a, t, rows[k])
    ensures var d := Decoded(schema, t, rows, order, i);
            d.Some? && forall id :: id in d.value ==> RowId(t, id) in a && d.value[id] == a[RowId(t, id)]
  {
    if i > 0 {
      DecodedWithin(schema, a, t, rows, order, i - 1);
      assert order[i - 1] in order;
    }
  }

  predicate Decodes<K, V>(schema: Schema<K, V>, t: TableName, bytes: Bytes) { schema.deserialize(t, bytes).Some? }

  /** The value some bytes decode to, and the id it carries. */
  function ValueIn<K, V>(schema: Schema<K, V>, t: TableName, bytes: Bytes): V
    requires Decodes(schema, t, bytes)
  {
    schema.deserialize(t, bytes).value
  }

  function IdIn<K, V>(schema: Schema<K, V>, t: TableName, bytes: Bytes): K
    requires Decodes(schema, t, bytes)
  {
    schema.uniqueId(t, ValueIn(schema, t, bytes))
  }

  /** No later row carries the id of row `j`. */
  ghost predicate LastOfItsId<K, V>(schema: Schema<K, V>, t: TableName, rows: seq<Bytes>, j: nat)
    requires j < |rows| && forall i :: 0 <= i < |rows| ==> Decodes(schema, t, rows[i])
  {
    forall l :: j < l < |rows| ==> IdIn(schema, t, rows[l]) != IdIn(schema, t, rows[j])
  }

  /** The ids are those carried by the rows, and each has the value of the last row carrying it. */
  ghost predicate Folds<K(!new), V>(schema: Schema<K, V>, t: TableName, rows: seq<Bytes>, d: map<K, V>) {
    && (forall i :: 0 <= i < |rows| ==> Decodes(schema, t, rows[i]))
    && (forall id :: id in d ==> exists j :: 0 <= j < |rows| && IdIn(schema, t, rows[j]) == id)
    && (forall j :: 0 <= j < |rows| ==> IdIn(schema, t, rows[j]) in d)
    && (forall j :: 0 <= j < |rows| && LastOfItsId(schema, t, rows, j) ==>
                      d[IdIn(schema, t, rows[j])] == ValueIn(schema, t, rows[j]))
  }

  lemma FoldsMore<K(!new), V>(
    schema: Schema<K, V>, t: TableName, rows: seq<Bytes>, d: map<K, V>, next: Bytes)
    requires Folds(schema, t, rows, d) && Decodes(schema, t, next)
    ensures Folds(schema, t, rows + [next], d[IdIn(schema, t, next) := ValueIn(schema, t, next)])
  {
    var all, id, d' := rows + [next], IdIn(schema, t, next), d[IdIn(schema, t, next) := ValueIn(schema, t, next)];
    assert all[|rows|] == next;
    forall x | x in d' ensures exists j :: 0 <= j < |all| && IdIn(schema, t, all[j]) == x {
      if x != id {
        var j :| 0 <= j < |rows| && IdIn(schema, t, rows[j]) == x;
        assert all[j] == rows[j];
      }
    }
    forall j | 0 <= j < |all| && LastOfItsId(schema, t, all, j)
      ensures d'[IdIn(schema, t, all[j])] == ValueIn(schema, t, all[j])
    {
      if j < |rows| {
        assert IdIn(schema, t, all[|rows|]) != IdIn(schema, t, all[j]);
        forall l | j < l < |rows| ensures IdIn(schema, t, rows[l]) != IdIn(schema, t, rows[j]) {
          assert all[l] == rows[l];
        }
        assert LastOfItsId(schema, t, rows, j);
      }
    }
  }

  ghost function InOrder(rows: R.Rows, order: seq<Key>, i: nat): (r: seq<Bytes>)
    requires i <= |order| && forall k :: k in order ==> k in rows
    ensures |r| == i && forall j :: 0 <= j < i ==> order[j] in rows && r[j] == rows[order[j]]
  {
    seq(i, j requires 0 <= j < i => assert order[j] in order; rows[order[j]])
  }

  /** A row that does not decode, or the fold of them all. */
  ghost predicate Outcome<K(!new), V>(schema: Schema<K, V>, t: TableName, rows: seq<Bytes>, d: Option<map<K, V>>) {
    match d
    case Some(folded) => Folds(schema, t, rows, folded)
    case None => exists j :: 0 <= j < |rows| && !Decodes(schema, t, rows[j])
  }

  /** The rows, folded one by one. */
  ghost function FoldUp<K, V>(schema: Schema<K, V>, t: TableName, rows: seq<Bytes>): Option<map<K, V>> {
    if rows == [] then Some(map[]) else Extended(schema, t, FoldUp(schema, t, rows[..|rows| - 1]), rows[|rows| - 1])
  }

  ghost function Extended<K, V>(schema: Schema<K, V>, t: TableName, d: Option<map<K, V>>, next: Bytes)
    : Option<map<K, V>>
  {
    if d.Some? && Decodes(schema, t, next) then Some(d.value[IdIn(schema, t, next) := ValueIn(schema, t, next)])
    else None
  }

  lemma OutcomeMore<K(!new), V>(schema: Schema<K, V>, t: TableName, rows: seq<Bytes>, d: Option<map<K, V>>)
    requires rows != [] && Outcome(schema, t, rows[..|rows| - 1], d)
    ensures Outcome(schema, t, rows, Extended(schema, t, d, rows[|rows| - 1]))
  {
    var n := |rows| - 1;
    if d.Some? && Decodes(schema, t, rows[n]) {
      FoldsMore(schema, t, rows[..n], d.value, rows[n]);
      assert rows[..n] + [rows[n]] == rows;
    } else if Decodes(schema, t, rows[n]) {
      var j :| 0 <= j < n && !Decodes(schema, t, rows[..n][j]);
      assert !Decodes(schema, t, rows[j]);
    }
  }

  lemma {:induction false} FoldUpOutcome<K(!new), V>(schema: Schema<K, V>, t: TableName, rows: seq<Bytes>)
    ensures Outcome(schema, t, rows, FoldUp(schema, t, rows))
  {
    if rows != [] {
      var before := rows[..|rows| - 1];
      FoldUpOutcome(schema, t, before);
      OutcomeMore(schema, t, rows, FoldUp(schema, t, before));
    }
  }

  lemma {:induction false} DecodedIsFoldUp<K, V>(
    schema: Schema<K, V>, t: TableName, rows: R.Rows, order: seq<Key>, i: nat)
    requires i <= |order| && forall k :: k in order ==> k in rows
    ensures Decoded(schema, t, rows, order, i) == FoldUp(schema, t, InOrder(rows, order, i))
  {
    if i > 0 {
      DecodedIsFoldUp(schema, t, rows, order, i - 1);
      assert order[i - 1] in order;
      assert InOrder(rows, order, i)[..i - 1] == InOrder(rows, order, i - 1);
    }
  }

  /** The decoding loop answers if and only if every row decodes, and then folds them by the id they carry. */
  lemma DecodedFolds<K(!new), V>(schema: Schema<K, V>, t: TableName, rows: R.Rows, order: seq<Key>)
    requires forall k :: k in order ==> k in rows
    ensures Outcome(schema, t, InOrder(rows, order, |order|), Decoded(schema, t, rows, order, |order|))
  {
    DecodedIsFoldUp(schema, t, rows, order, |order|);
    FoldUpOutcome(schema, t, InOrder(rows, order, |order|));
  }

  /** The id of every decoded row is in the result. */
  lemma DecodedIncludes<K(!new), V>(schema: Schema<K, V>, t: TableName, rows: R.Rows, order: seq<Key>, k: Key)
    requires k in order && forall x :: x in order ==> x in rows
    ensures match Decoded(schema, t, rows, order, |order|)
            case None => true
            case Some(d) => Decodes(schema, t, rows[k]) && IdIn(schema, t, rows[k]) in d
  {
    DecodedFolds(schema, t, rows, order);
    var j :| 0 <= j < |order| && order[j] == k;
    assert InOrder(rows, order, |order|)[j] == rows[k];
  }

  lemma TableOfHas<K, V>(a: Tables<K, V>, t: TableName, d: map<K, V>)
    requires forall id :: id in d <==> RowId(t, id) in a
    requires forall id :: id in d ==> d[id] == a[RowId(t, id)]
    ensures d == TableOf(a, t)
  {
  }

  /** Every listed row reads as an own one, unless a foreign one does not. */
  lemma ListedReadsAsOwn<K(!new), V(!new)>(schema: Schema<K, V>, m: R.Rows, a: Tables<K, V>, t: TableName, k: Key)
    requires PrefixesSeeTables(schema) && RoundTrips(schema) && Represents(schema, m, a) && Harmless(schema, a, t)
    requires k in Listed(m, t)
    ensures ReadsAsOwn(schema, a, t, m[k])
  {
    var r :| r in a && schema.keyOf(r) == k;
    assert StartsWith(r.table, t);
  }

  /** With harmless extensions, any order of the listed rows decodes to exactly the table. */
  lemma HarmlessDecodes<K(!new), V(!new)>(
    schema: Schema<K, V>, m: R.Rows, a: Tables<K, V>, t: TableName, order: seq<Key>)
    requires Lawful(schema) && Represents(schema, m, a) && Harmless(schema, a, t)
    requires Enumerates(order, Listed(m, t).Keys)
    ensures Decoded(schema, t, Listed(m, t), order, |order|) == Some(TableOf(a, t))
  {
    var rows := Listed(m, t);
    forall k | k in order ensures ReadsAsOwn(schema, a, t, rows[k]) {
      ListedReadsAsOwn(schema, m, a, t, k);
    }
    DecodedWithin(schema, a, t, rows, order, |order|);
    var d := Decoded(schema, t, rows, order, |order|).value;
    forall id | RowId(t, id) in a ensures id in d {
      var k := schema.keyOf(RowId(t, id));
      assert StartsWith(k, t) && k in order;
      DecodedIncludes(schema, t, rows, order, k);
    }
    TableOfHas(a, t, d);
  }

  /** Some iteration order visits a given key last. */
  lemma {:induction false} KeyLast(keys: set<Key>, last: Key) returns (order: seq<Key>)
    requires last in keys
    ensures Enumerates(order, keys) && order[|order| - 1] == last
    decreases |keys|
  {
    if keys - {last} == {} {
      order := [last];
    } else {
      var k :| k in keys - {last};
      var rest := KeyLast(keys - {k}, last);
      order := [k] + rest;
      assert forall x :: x in order <==> x == k || x in rest;
    }
  }

  /** The row visited last is in the result, if there is one. */
  lemma DecodedLast<K, V>(schema: Schema<K, V>, t: TableName, rows: R.Rows, order: seq<Key>)
    requires order != [] && forall k :: k in order ==> k in rows
    ensures match Decoded(schema, t, rows, order, |order|)
            case None => true
            case Some(d) =>
              match schema.deserialize(t, rows[order[|order| - 1]])
              case None => false
              case Some(v) => schema.uniqueId(t, v) in d && d[schema.uniqueId(t, v)] == v
  {
  }

  /** A foreign row that does not read as an own one, visited last, spoils the listing. */
  lemma ForeignRowLast<K, V>(schema: Schema<K, V>, a: Tables<K, V>, t: TableName, rows: R.Rows, order: seq<Key>)
    requires order != [] && forall k :: k in order ==> k in rows
    requires !ReadsAsOwn(schema, a, t, rows[order[|order| - 1]])
    ensures Decoded(schema, t, rows, order, |order|) != Some(TableOf(a, t))
  {
    DecodedLast(schema, t, rows, order);
  }

  ghost predicate ListsExactly<K, V>(schema: Schema<K, V>, m: R.Rows, a: Tables<K, V>, t: TableName) {
    forall order :: Enumerates(order, Listed(m, t).Keys) ==>
                      Decoded(schema, t, Listed(m, t), order, |order|) == Some(TableOf(a, t))
  }

  /**
  `list_entries` returns exactly the table's rows, in whatever order the listed
  rows are visited, if and only if every stored row of a table whose name properly
  extends this one decodes, under this table, to a row this table has.
  */
  lemma ListEntriesExactIff<K(!new), V(!new)>(schema: Schema<K, V>, m: R.Rows, a: Tables<K, V>, t: TableName)
    requires Lawful(schema) && Represents(schema, m, a)
    ensures ListsExactly(schema, m, a, t) <==> Harmless(schema, a, t)
  {
    if Harmless(schema, a, t) {
      forall order | Enumerates(order, Listed(m, t).Keys)
        ensures Decoded(schema, t, Listed(m, t), order, |order|) == Some(TableOf(a, t))
      {
        HarmlessDecodes(schema, m, a, t, order);
      }
    } else {
      var r :| r in a && StartsWith(r.table, t) && r.table != t
               && !ReadsAsOwn(schema, a, t, schema.serialize(r.table, a[r]));
      assert schema.keyOf(r) in Listed(m, t).Keys;
      var order := KeyLast(Listed(m, t).Keys, schema.keyOf(r));
      ForeignRowLast(schema, a, t, Listed(m, t), order);
    }
  }

  /** What a caller can see to: with no row in an extending table, every listing is exact. */
  lemma NoExtensionListsExactly<K(!new), V(!new)>(schema: Schema<K, V>, m: R.Rows, a: Tables<K, V>, t: TableName)
    requires Lawful(schema) && Represents(schema, m, a) && NoExtension(a, t)
    ensures ListsExactly(schema, m, a, t)
  {
    ListEntriesExactIff(schema, m, a, t);
  }

  lemma DecodeTwo<K, V>(schema: Schema<K, V>, t: TableName, rows: R.Rows, j: Key, k: Key, v: V, w: V)
    requires j in rows && schema.deserialize(t, rows[j]) == Some(v)
    requires k in rows && schema.deserialize(t, rows[k]) == Some(w)
    ensures Decoded(schema, t, rows, [j, k], 2)
            == Some(map[schema.uniqueId(t, v) := v][schema.uniqueId(t, w) := w])
  {
    assert Decoded(schema, t, rows, [j, k], 0) == Some(map[]);
    assert Decoded(schema, t, rows, [j, k], 1) == Some(map[schema.uniqueId(t, v) := v]);
  }

  /** A row of a table, and one of a table whose name properly extends it. */
  ghost predicate OwnAndForeign<K, V>(schema: Schema<K, V>, own: RowId<K>, foreign: RowId<K>, v: V, w: V) {
    && own.table < foreign.table && Has(schema, own) && Has(schema, foreign)
    && schema.belongs(own.table, v) && schema.uniqueId(own.table, v) == own.id
    && schema.belongs(foreign.table, w) && schema.uniqueId(foreign.table, w) == foreign.id
  }

  ghost function TwoObjects<K, V>(schema: Schema<K, V>, own: RowId<K>, foreign: RowId<K>, v: V, w: V): R.Rows {
    map[schema.keyOf(own) := schema.serialize(own.table, v),
        schema.keyOf(foreign) := schema.serialize(foreign.table, w)]
  }

  lemma TwoRows<K(!new), V>(schema: Schema<K, V>, own: RowId<K>, foreign: RowId<K>, v: V, w: V)
    requires Injective(schema) && PrefixesSeeTables(schema) && OwnAndForeign(schema, own, foreign, v, w)
    ensures var m := TwoObjects(schema, own, foreign, v, w);
            Represents(schema, m, map[own := v, foreign := w]) && Listed(m, own.table) == m
    ensures TableOf(map[own := v, foreign := w], own.table) == map[own.id := v]
  {
    var a := map[own := v, foreign := w];
    assert own in a && foreign in a && own != foreign;
    assert StartsWith(own.table, own.table) && StartsWith(foreign.table, own.table);
  }

  /**
  Where the condition fails: a row of an extending table that decodes, under `own.table`,
  to a value with the id of the own row. The listing then holds one value or the other,
  as the iteration order has it.
  */
  lemma EitherValueListed<K(!new), V(!new)>(schema: Schema<K, V>, own: RowId<K>, foreign: RowId<K>, v: V, w: V)
    requires Lawful(schema) && OwnAndForeign(schema, own, foreign, v, w)
    requires schema.deserialize(own.table, schema.serialize(foreign.table, w)) == Some(w)
    requires schema.uniqueId(own.table, w) == own.id
    ensures var j, k, m := schema.keyOf(own), schema.keyOf(foreign), TwoObjects(schema, own, foreign, v, w);
            && Decoded(schema, own.table, m, [j, k], 2) == Some(map[own.id := w])
            && Decoded(schema, own.table, m, [k, j], 2) == Some(map[own.id := v])
  {
    var j, k, m := schema.keyOf(own), schema.keyOf(foreign), TwoObjects(schema, own, foreign, v, w);
    assert own != foreign && j != k;
    DecodeTwo(schema, own.table, m, j, k, v, w);
    DecodeTwo(schema, own.table, m, k, j, w, v);
    assert map[own.id := v][own.id := w] == map[own.id := w] && map[own.id := w][own.id := v] == map[own.id := v];
  }

  // ------------------------------------------------------------------ whole runs

  /** Every reopening comes while the persisted key list is known to be the current one. */
  ghost predicate ReopensSettled<K, V>(
    schema: Schema<K, V>, a: Tables<K, V>, settled: bool, ops: seq<ClientOp<K, V>>)
    decreases |ops|
  {
    ops != [] ==>
      && (ops[0].ReopenDb? && ops[0].loaded ==> settled)
      && ReopensSettled(schema, TableStep(schema, a, ops[0]).0, Settles(a, ops[0], settled), ops[1..])
  }

  lemma {:induction false} HealthyReopensSettled<K, V>(
    schema: Schema<K, V>, a: Tables<K, V>, ops: seq<ClientOp<K, V>>)
    requires forall i :: 0 <= i < |ops| ==> ops[i].Healthy()
    ensures ReopensSettled(schema, a, true, ops)
    decreases |ops|
  {
    if ops != [] {
      HealthyReopensSettled(schema, TableStep(schema, a, ops[0]).0, ops[1..]);
    }
  }

  /** What decoding these rows answers: an error for a row that does not decode, or their fold by the ids they carry. */
  ghost predicate FoldAnswers<K(!new), V>(
    schema: Schema<K, V>, op: ClientOp<K, V>, rows: R.Rows, r: ClientReply<K, V>)
    requires op.ListEntries? && op.Fair()
  {
    var order := op.rowOrder(rows.Keys);
    var bytes := InOrder(rows, order, |order|);
    if exists j :: 0 <= j < |bytes| && !Decodes(schema, op.table, bytes[j]) then r == Failed
    else r.RowsOf? && Folds(schema, op.table, bytes, r.rows)
  }

  /**
  A listing fails if a load it makes fails or a stored row its prefix covers, own or
  foreign, does not decode. Otherwise it folds those rows by the ids they carry, which
  gives exactly the table if extending tables are harmless.
  */
  ghost predicate ListingAgrees<K(!new), V>(
    schema: Schema<K, V>, a: Tables<K, V>, op: ClientOp<K, V>, r: ClientReply<K, V>)
    requires op.ListEntries? && op.Fair()
  {
    if LoadFails(schema, a, op) then r == Failed
    else
      && FoldAnswers(schema, op, Listed(Stored(schema, a), op.table), r)
      && (Harmless(schema, a, op.table) ==> r == TableStep(schema, a, op).1)
  }

  ghost predicate AnswerAgrees<K(!new), V>(
    schema: Schema<K, V>, a: Tables<K, V>, op: ClientOp<K, V>, r: ClientReply<K, V>)
    requires op.Fair()
  {
    if op.ListEntries? then ListingAgrees(schema, a, op, r) else r == TableStep(schema, a, op).1
  }

  /** At every point of the run the store represents the tables, and each answer is theirs. */
  ghost predicate RunAgrees<K(!new), V>(
    schema: Schema<K, V>, db: Database, s: State, a: Tables<K, V>, ops: seq<ClientOp<K, V>>)
    requires forall i :: 0 <= i < |ops| ==> ops[i].Fair()
    decreases |ops|
  {
    && (exists m :: F.Mirrors(db, s, m) && Represents(schema, m, a))
    && (ops != [] ==>
          var (s', r) := ClientStep(schema, db, s, ops[0]);
          AnswerAgrees(schema, a, ops[0], r) && RunAgrees(schema, db, s', TableStep(schema, a, ops[0]).0, ops[1..]))
  }

  lemma InterpretFolds<K(!new), V>(schema: Schema<K, V>, op: ClientOp<K, V>, rows: R.Rows)
    requires op.ListEntries? && op.Fair()
    ensures FoldAnswers(schema, op, rows, Interpret(schema, op, Entries(rows)))
  {
    var order := op.rowOrder(rows.Keys);
    DecodedFolds(schema, op.table, rows, order);
  }

  lemma HarmlessAnswer<K(!new), V(!new)>(schema: Schema<K, V>, m: R.Rows, a: Tables<K, V>, op: ClientOp<K, V>)
    requires op.ListEntries? && op.Fair()
    requires Lawful(schema) && Represents(schema, m, a) && Harmless(schema, a, op.table)
    ensures Interpret(schema, op, Entries(Listed(m, op.table))) == RowsOf(TableOf(a, op.table))
  {
    HarmlessDecodes(schema, m, a, op.table, op.rowOrder(Listed(m, op.table).Keys));
  }

  lemma ListingStep<K(!new), V(!new)>(schema: Schema<K, V>, m: R.Rows, a: Tables<K, V>, op: ClientOp<K, V>)
    requires Lawful(schema) && Represents(schema, m, a) && op.ListEntries? && op.Fair()
    ensures ListingAgrees(schema, a, op, Interpret(schema, op, F.FaultyStep(m, DbOp(schema, op)).1))
  {
    RepresentsStored(schema, m, a);
    if !LoadFails(schema, a, op) {
      assert F.FaultyStep(m, DbOp(schema, op)).1 == Entries(Listed(m, op.table));
      InterpretFolds(schema, op, Listed(m, op.table));
      if Harmless(schema, a, op.table) { HarmlessAnswer(schema, m, a, op); }
    }
  }

  lemma StepAgrees<K(!new), V(!new)>(
    schema: Schema<K, V>, db: Database, s: State, m: R.Rows, a: Tables<K, V>, op: ClientOp<K, V>, settled: bool)
    returns (m': R.Rows)
    requires db.codec.RoundTrips() && Lawful(schema) && NoRowNamed(schema, db.name)
    requires F.Mirrors(db, s, m) && (settled ==> F.InStep(db, s)) && Represents(schema, m, a)
    requires op.Fair() && Typed(schema, op) && (op.ReopenDb? && op.loaded ==> settled)
    ensures var (s', r) := ClientStep(schema, db, s, op);
            && F.Mirrors(db, s', m') && Represents(schema, m', TableStep(schema, a, op).0)
            && (Settles(a, op, settled) ==> F.InStep(db, s'))
            && AnswerAgrees(schema, a, op, r)
  {
    var dbOp := DbOp(schema, op);
    if op.PutRow? { assert Has(schema, RowId(op.table, schema.uniqueId(op.table, op.value))); }
    F.FaultyStepMirrors(db, s, m, dbOp, settled);
    m' := F.FaultyStep(m, dbOp).0;
    match op
    case PutRow(t, value, _, _) => PutRepresents(schema, m, a, t, value);
    case GetRow(t, id, _) => DeleteRepresents(schema, m, a, RowId(t, id));
    case DeleteEntry(t, id, _) => DeleteRepresents(schema, m, a, RowId(t, id));
    case ListEntries(_, _, _, _) => ListingStep(schema, m, a, op);
    case ReopenDb(_) =>
  }

  /**
  Over every run, with storage failures anywhere, a client whose database name is no
  row's key behaves as one map per table, whatever the tables' types: a put takes effect
  exactly when its object is saved and a delete exactly when its object is removed, and
  every answer is that of the maps, a listing's as `ListingAgrees` says. Reopening is
  covered while the persisted key list is current, as it always is without failures.
  */
  lemma {:induction false} ClientRunRefines<K(!new), V(!new)>(
    schema: Schema<K, V>, db: Database, s: State, m: R.Rows, a: Tables<K, V>, settled: bool, ops: seq<ClientOp<K, V>>)
    requires db.codec.RoundTrips() && Lawful(schema) && NoRowNamed(schema, db.name)
    requires F.Mirrors(db, s, m) && (settled ==> F.InStep(db, s)) && Represents(schema, m, a)
    requires forall i :: 0 <= i < |ops| ==> ops[i].Fair() && Typed(schema, ops[i])
    requires ReopensSettled(schema, a, settled, ops)
    ensures RunAgrees(schema, db, s, a, ops)
    decreases |ops|
  {
    if ops != [] {
      var op := ops[0];
      var m' := StepAgrees(schema, db, s, m, a, op, settled);
      var s', a' := ClientStep(schema, db, s, op).0, TableStep(schema, a, op).0;
      ClientRunRefines(schema, db, s', m', a', Settles(a, op, settled), ops[1..]);
    }
  }
}
