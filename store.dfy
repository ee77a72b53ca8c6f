/** The SQLite tables the converters fill, seen abstractly: a table with a
    primary key is a map from key to row, a table without one is a
    sequence of rows. */
module Store {
  import opened Common

  /** The value bound to one `?` placeholder of an INSERT. */
  datatype SqlValue = Null | Integer(i: int) | Real(r: real) | Text(s: string)

  type SqlRow = seq<SqlValue>

  /** `INSERT OR IGNORE` into a table keyed by `key`: a key that is already
      present keeps the row it has; otherwise the row is added. */
  function InsertOrIgnore<K(==), V>(table: map<K, V>, key: K, row: V): (t: map<K, V>)
    ensures t.Keys == table.Keys + {key}
    ensures forall k :: k in table ==> t[k] == table[k]
    ensures key !in table ==> t[key] == row
  {
    if key in table then table else table[key := row]
  }

  /** Plain `INSERT` into a table keyed by `key`: a key that is already
      present raises IntegrityError (None); otherwise the row is added. */
  function Insert<K(==), V>(table: map<K, V>, key: K, row: V): (r: Option<map<K, V>>)
    ensures r.None? <==> key in table
    ensures r.Some? ==> r.value.Keys == table.Keys + {key} && r.value[key] == row
    ensures r.Some? ==> forall k :: k in table ==> r.value[k] == table[k]
  {
    if key in table then None else Some(table[key := row])
  }
}
