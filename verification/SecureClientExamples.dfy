/** Lawful schemas of the typed client: tables of different types, and two tables of one type. */
module SecureClientExamples {
  import opened Base
  import opened SecureDb
  import opened Storable
  import opened SecureClient

  // -------------------------------------------- an example with two types of rows

  datatype ShopId = UserId(name: Bytes) | OrderId(number: u8)
  datatype ShopValue = User(name: Bytes, age: u8) | Order(number: u8, total: u8)

  function Printed(id: ShopId): string {
    match id
    case UserId(name) => seq(|name|, i requires 0 <= i < |name| => name[i] as char)
    case OrderId(number) => [number as char]
  }

  function ShopUniqueId(v: ShopValue): ShopId {
    match v
    case User(name, _) => UserId(name)
    case Order(number, _) => OrderId(number)
  }

  function ShopEncode(v: ShopValue): Bytes {
    match v
    case User(name, age) => [age] + name
    case Order(number, total) => [number, total]
  }

  /** Each table's decoder yields values of its own type only. */
  function ShopDecode(t: TableName, b: Bytes): Option<ShopValue> {
    if t == "User" && |b| >= 1 then Some(User(b[1..], b[0]))
    else if t == "Order" && |b| == 2 then Some(Order(b[0], b[1]))
    else None
  }

  function ShopTypes(): Schema<ShopId, ShopValue> {
    Schema((t: TableName, id: ShopId) => (t == "User" && id.UserId?) || (t == "Order" && id.OrderId?),
           (t: TableName, v: ShopValue) => (t == "User" && v.User?) || (t == "Order" && v.Order?),
           (r: RowId<ShopId>) => "",
           (t: TableName, v: ShopValue) => ShopUniqueId(v),
           (t: TableName, v: ShopValue) => ShopEncode(v),
           (t: TableName, b: Bytes) => ShopDecode(t, b))
  }

  function ShopPrinting(): (TableName, ShopId) -> string { (t: TableName, id: ShopId) => Printed(id) }

  function ShopSchema(): Schema<ShopId, ShopValue> { WithStorageKeys(ShopTypes(), ShopPrinting()) }

  lemma PrintedInjective(i: ShopId, j: ShopId)
    requires i.UserId? == j.UserId? && Printed(i) == Printed(j)
    ensures i == j
  {
    if i.UserId? {
      forall n | 0 <= n < |i.name| ensures |j.name| == |i.name| && i.name[n] == j.name[n] {
        assert Printed(i)[n] == Printed(j)[n];
      }
      assert |Printed(i)| == |i.name| && |Printed(j)| == |j.name|;
      assert i.name == j.name;
    }
  }

  /** Two tables whose ids and values are of different types make a lawful schema. */
  lemma ShopSchemaLawful(name: TableName)
    ensures Lawful(ShopSchema()) && NoRowNamed(ShopSchema(), name)
    ensures ShopSchema().belongs("User", User([1], 30)) && ShopSchema().belongs("Order", Order(1, 2))
    ensures forall b, v :: ShopSchema().deserialize("User", b) == Some(v) ==> v.User?
  {
    var schema := ShopTypes();
    forall t: TableName, v | schema.belongs(t, v)
      ensures schema.hasId(t, schema.uniqueId(t, v)) && schema.deserialize(t, schema.serialize(t, v)) == Some(v)
    {
    }
    forall t: TableName, i, j | schema.hasId(t, i) && schema.hasId(t, j) && ShopPrinting()(t, i) == ShopPrinting()(t, j)
      ensures i == j
    {
      PrintedInjective(i, j);
    }
    StorageKeysLawful(schema, ShopPrinting(), name);
  }

  // ------------------------------------------------------------ two tables of one type

  /** Two tables of one record type, the first byte being its id. */
  function ByteTypes(): Schema<u8, Bytes> {
    Schema((t: TableName, id: u8) => true,
           (t: TableName, v: Bytes) => true,
           (r: RowId<u8>) => "",
           (t: TableName, v: Bytes) => if v == [] then 0 else v[0],
           (t: TableName, v: Bytes) => v,
           (t: TableName, b: Bytes) => Some(b))
  }

  function BytePrinting(): (TableName, u8) -> string { (t: TableName, id: u8) => [id as char] }

  function ByteSchema(): Schema<u8, Bytes> { WithStorageKeys(ByteTypes(), BytePrinting()) }

  /** Listing `User` gives the row of `UserBackup` in place of its own. */
  lemma OwnRowReplaced()
    ensures var schema, own, foreign := ByteSchema(), RowId("User", 7), RowId("UserBackup", 7);
            var j, k := schema.keyOf(own), schema.keyOf(foreign);
            var a, m := map[own := [7, 1], foreign := [7, 2]], map[j := [7, 1], k := [7, 2]];
            && Lawful(schema) && Represents(schema, m, a) && Listed(m, "User") == m
            && TableOf(a, "User") == map[7 := [7, 1]]
            && Decoded(schema, "User", m, [j, k], 2) == Some(map[7 := [7, 2]])
  {
    var schema, own, foreign := ByteSchema(), RowId("User", 7), RowId("UserBackup", 7);
    StorageKeysLawful(ByteTypes(), BytePrinting(), "");
    assert own.table < foreign.table;
    TwoRows(schema, own, foreign, [7, 1], [7, 2]);
    EitherValueListed(schema, own, foreign, [7, 1], [7, 2]);
  }
}
