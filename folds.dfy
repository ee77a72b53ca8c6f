/** The row loop every loader of the converters repeats: read the rows in
    order, stop at the first row that raises, pass over the rows the loop
    `continue`s past, and store each kept row's value in a dict, either
    flat (`d[k] = v`) or nested (`d[k][f] = v`, creating `d[k] = {}`
    first). What a loader does with one row is its `classify` function. */
module Folds {
  import opened Common

  /** No row raises. */
  ghost predicate NoFatal<T, E>(rows: seq<Row>, classify: Row -> Outcome<T, E>) {
    forall i :: 0 <= i < |rows| ==> !classify(rows[i]).Fatal?
  }

  /** e is what the first row that raises raises. */
  ghost predicate FirstFatal<T, E>(rows: seq<Row>, classify: Row -> Outcome<T, E>, e: E) {
    exists i :: 0 <= i < |rows| && classify(rows[i]) == Fatal(e)
      && forall j :: 0 <= j < i ==> !classify(rows[j]).Fatal?
  }

  // ----- d[k] = v

  /** Row i is kept, under key k. */
  ghost predicate KeptUnder<K, V, E>(rows: seq<Row>, classify: Row -> Outcome<(K, V), E>, i: int, k: K) {
    0 <= i < |rows| && classify(rows[i]).Keep? && classify(rows[i]).value.0 == k
  }

  /** The dict after the first n rows, when each kept row does `d[k] = v`. */
  function Collect<K(==, !new), V, E>(rows: seq<Row>, n: nat, classify: Row -> Outcome<(K, V), E>): Dict<K, V>
    requires n <= |rows|
  {
    if n == 0 then EmptyDict()
    else
      var d := Collect(rows, n - 1, classify);
      match classify(rows[n - 1])
      case Keep(kv) => d.Put(kv.0, kv.1)
      case _ => d
  }

  /** The loop itself: `for row in reader: ... d[k] = v`. */
  method CollectRows<K(==, !new), V, E>(rows: seq<Row>, classify: Row -> Outcome<(K, V), E>)
    returns (r: Result<Dict<K, V>, E>)
    ensures r.Ok? <==> NoFatal(rows, classify)
    ensures r.Ok? ==> r.value == Collect(rows, |rows|, classify)
    ensures r.Err? ==> FirstFatal(rows, classify, r.error)
  {
    var d: Dict<K, V> := EmptyDict();
    var i := 0;
    while i < |rows|
      invariant 0 <= i <= |rows|
      invariant forall j :: 0 <= j < i ==> !classify(rows[j]).Fatal?
      invariant d == Collect(rows, i, classify)
    {
      match classify(rows[i]) {
        case Fatal(e) =>
          return Err(e);
        case Skip =>
        case Keep(kv) =>
          d := d.Put(kv.0, kv.1);
      }
      i := i + 1;
    }
    return Ok(d);
  }

  /** The dict holds key k exactly when some row was kept under k, and then
      its value is the one of the last such row: a later row overwrites. */
  lemma {:induction false} CollectLastWins<K(!new), V, E>(rows: seq<Row>, n: nat, classify: Row -> Outcome<(K, V), E>, k: K)
    requires n <= |rows|
    ensures Collect(rows, n, classify).Valid()
    ensures k in Collect(rows, n, classify).entries <==> exists i :: i < n && KeptUnder(rows, classify, i, k)
    ensures k in Collect(rows, n, classify).entries ==>
      exists i :: i < n && KeptUnder(rows, classify, i, k)
        && classify(rows[i]).value.1 == Collect(rows, n, classify).entries[k]
        && forall j :: i < j < n ==> !KeptUnder(rows, classify, j, k)
  {
    if n > 0 {
      CollectLastWins(rows, n - 1, classify, k);
      var d := Collect(rows, n - 1, classify);
      var d' := Collect(rows, n, classify);
      if KeptUnder(rows, classify, n - 1, k) {
        assert d'.entries[k] == classify(rows[n - 1]).value.1;
      } else {
        // row n - 1 leaves k alone, so both sides are as after n - 1 rows
        assert k in d'.entries <==> k in d.entries;
        assert (exists i :: i < n && KeptUnder(rows, classify, i, k))
          ==> exists i :: i < n - 1 && KeptUnder(rows, classify, i, k);
      }
      if KeptUnder(rows, classify, n - 1, k) {
      } else if k in d.entries {
        assert k in d'.entries && d'.entries[k] == d.entries[k];
        var i :| i < n - 1 && KeptUnder(rows, classify, i, k)
          && classify(rows[i]).value.1 == d.entries[k]
          && forall j :: i < j < n - 1 ==> !KeptUnder(rows, classify, j, k);
        assert forall j :: i < j < n ==> !KeptUnder(rows, classify, j, k);
      } else {
        assert k !in d'.entries;
      }
    }
  }

  /** How many of the first n rows are passed over. */
  function Skipped<T, E>(rows: seq<Row>, n: nat, classify: Row -> Outcome<T, E>): nat
    requires n <= |rows|
  {
    if n == 0 then 0 else Skipped(rows, n - 1, classify) + if classify(rows[n - 1]).Skip? then 1 else 0
  }

  /** How many of the first n rows are kept. */
  function Kept<T, E>(rows: seq<Row>, n: nat, classify: Row -> Outcome<T, E>): nat
    requires n <= |rows|
  {
    if n == 0 then 0 else Kept(rows, n - 1, classify) + if classify(rows[n - 1]).Keep? then 1 else 0
  }

  /** When no row raises, every row is either passed over or kept, and the
      dict has at most one key per kept row (fewer when keys repeat). */
  lemma {:induction false} CollectCounts<K(!new), V, E>(rows: seq<Row>, n: nat, classify: Row -> Outcome<(K, V), E>)
    requires n <= |rows|
    ensures (forall j :: 0 <= j < n ==> !classify(rows[j]).Fatal?) ==> Skipped(rows, n, classify) + Kept(rows, n, classify) == n
    ensures |Collect(rows, n, classify).keys| <= Kept(rows, n, classify)
  {
    if n > 0 {
      CollectCounts(rows, n - 1, classify);
    }
  }

  /** The loop of a loader that also counts the rows it passes over. */
  method CollectRowsCountingSkips<K(==, !new), V, E>(rows: seq<Row>, classify: Row -> Outcome<(K, V), E>)
    returns (r: Result<(Dict<K, V>, nat), E>)
    ensures r.Ok? <==> NoFatal(rows, classify)
    ensures r.Ok? ==> r.value.0 == Collect(rows, |rows|, classify) && r.value.1 == Skipped(rows, |rows|, classify)
    ensures r.Err? ==> FirstFatal(rows, classify, r.error)
  {
    var d: Dict<K, V> := EmptyDict();
    var skipped := 0;
    var i := 0;
    while i < |rows|
      invariant 0 <= i <= |rows|
      invariant forall j :: 0 <= j < i ==> !classify(rows[j]).Fatal?
      invariant d == Collect(rows, i, classify)
      invariant skipped == Skipped(rows, i, classify)
    {
      match classify(rows[i]) {
        case Fatal(e) =>
          return Err(e);
        case Skip =>
          skipped := skipped + 1;
        case Keep(kv) =>
          d := d.Put(kv.0, kv.1);
      }
      i := i + 1;
    }
    return Ok((d, skipped));
  }

  // ----- d[k][f] = v

  /** Row i is kept, under key k. */
  ghost predicate NestedUnder<K, F, V, E>(rows: seq<Row>, classify: Row -> Outcome<(K, F, V), E>, i: int, k: K) {
    0 <= i < |rows| && classify(rows[i]).Keep? && classify(rows[i]).value.0 == k
  }

  /** Row i is kept, and sets field f under key k. */
  ghost predicate SetsField<K, F, V, E>(rows: seq<Row>, classify: Row -> Outcome<(K, F, V), E>, i: int, k: K, f: F) {
    NestedUnder(rows, classify, i, k) && classify(rows[i]).value.1 == f
  }

  /** The nested dict after the first n rows, when each kept row does
      `if k not in d: d[k] = {}` and then `d[k][f] = v`. */
  function Nest<K(==), F(==), V, E>(rows: seq<Row>, n: nat, classify: Row -> Outcome<(K, F, V), E>): map<K, map<F, V>>
    requires n <= |rows|
  {
    if n == 0 then map[]
    else
      var d := Nest(rows, n - 1, classify);
      match classify(rows[n - 1])
      case Keep(t) =>
        var inner := if t.0 in d then d[t.0] else map[];
        d[t.0 := inner[t.1 := t.2]]
      case _ => d
  }

  /** The loop itself: `for row in reader: ... d[k][f] = v`. */
  method NestRows<K(==), F(==), V, E>(rows: seq<Row>, classify: Row -> Outcome<(K, F, V), E>)
    returns (r: Result<map<K, map<F, V>>, E>)
    ensures r.Ok? <==> NoFatal(rows, classify)
    ensures r.Ok? ==> r.value == Nest(rows, |rows|, classify)
    ensures r.Err? ==> FirstFatal(rows, classify, r.error)
  {
    var d: map<K, map<F, V>> := map[];
    var i := 0;
    while i < |rows|
      invariant 0 <= i <= |rows|
      invariant forall j :: 0 <= j < i ==> !classify(rows[j]).Fatal?
      invariant d == Nest(rows, i, classify)
    {
      match classify(rows[i]) {
        case Fatal(e) =>
          return Err(e);
        case Skip =>
        case Keep(t) =>
          if t.0 !in d {
            d := d[t.0 := map[]];
          }
          d := d[t.0 := d[t.0][t.1 := t.2]];
      }
      i := i + 1;
    }
    return Ok(d);
  }

  /** Every key of the nested dict was kept by some row, and every key
      maps to a non-empty inner dict. */
  lemma {:induction false} NestShape<K, F, V, E>(rows: seq<Row>, n: nat, classify: Row -> Outcome<(K, F, V), E>)
    requires n <= |rows|
    ensures forall k :: k in Nest(rows, n, classify) ==> Nest(rows, n, classify)[k] != map[]
    ensures forall k :: k in Nest(rows, n, classify) <==> exists i :: i < n && NestedUnder(rows, classify, i, k)
  {
    if n > 0 {
      NestShape(rows, n - 1, classify);
      var d := Nest(rows, n - 1, classify);
      var d' := Nest(rows, n, classify);
      forall k | k in d'
        ensures d'[k] != map[]
        ensures exists i :: i < n && NestedUnder(rows, classify, i, k)
      {
        if NestedUnder(rows, classify, n - 1, k) {
          assert classify(rows[n - 1]).value.1 in d'[k];
        } else {
          assert k in d && d'[k] == d[k];
        }
      }
      forall k | exists i :: i < n && NestedUnder(rows, classify, i, k)
        ensures k in d'
      {
        if !NestedUnder(rows, classify, n - 1, k) {
          var i :| i < n && NestedUnder(rows, classify, i, k);
          assert i < n - 1;
        }
      }
    }
  }

  /** Field f of key k is set exactly when some row set it, and then holds
      the value of the last such row; rows for other keys or other fields
      do not touch it. */
  lemma {:induction false} NestLastWins<K, F, V, E>(rows: seq<Row>, n: nat, classify: Row -> Outcome<(K, F, V), E>, k: K, f: F)
    requires n <= |rows|
    ensures (k in Nest(rows, n, classify) && f in Nest(rows, n, classify)[k])
      <==> exists i :: i < n && SetsField(rows, classify, i, k, f)
    ensures k in Nest(rows, n, classify) && f in Nest(rows, n, classify)[k] ==>
      exists i :: i < n && SetsField(rows, classify, i, k, f)
        && classify(rows[i]).value.2 == Nest(rows, n, classify)[k][f]
        && forall j :: i < j < n ==> !SetsField(rows, classify, j, k, f)
  {
    if n > 0 {
      NestLastWins(rows, n - 1, classify, k, f);
      var d := Nest(rows, n - 1, classify);
      var d' := Nest(rows, n, classify);
      if SetsField(rows, classify, n - 1, k, f) {
        assert d'[k][f] == classify(rows[n - 1]).value.2;
      } else if k in d && f in d[k] {
        assert k in d' && f in d'[k] && d'[k][f] == d[k][f];
        var i :| i < n - 1 && SetsField(rows, classify, i, k, f)
          && classify(rows[i]).value.2 == d[k][f]
          && forall j :: i < j < n - 1 ==> !SetsField(rows, classify, j, k, f);
        assert forall j :: i < j < n ==> !SetsField(rows, classify, j, k, f);
      } else {
        assert !(k in d' && f in d'[k]);
      }
    }
  }

  // ----- d.setdefault(k, []).append(v)

  /** The dict of lists after the first n rows, when each kept row does
      `if k not in d: d[k] = []` and then `d[k].append(v)`. */
  function Group<K(==), V, E>(rows: seq<Row>, n: nat, classify: Row -> Outcome<(K, V), E>): map<K, seq<V>>
    requires n <= |rows|
  {
    if n == 0 then map[]
    else
      var d := Group(rows, n - 1, classify);
      match classify(rows[n - 1])
      case Keep(kv) => d[kv.0 := (if kv.0 in d then d[kv.0] else []) + [kv.1]]
      case _ => d
  }

  /** The values kept under k among the first n rows, in row order: the
      reference a grouped list is checked against. */
  ghost function KeptValues<K, V, E>(rows: seq<Row>, n: nat, classify: Row -> Outcome<(K, V), E>, k: K): seq<V>
    requires n <= |rows|
  {
    if n == 0 then []
    else
      KeptValues(rows, n - 1, classify, k)
        + if KeptUnder(rows, classify, n - 1, k) then [classify(rows[n - 1]).value.1] else []
  }

  /** The loop itself: `for row in reader: ... d[k].append(v)`. */
  method GroupRows<K(==), V, E>(rows: seq<Row>, classify: Row -> Outcome<(K, V), E>)
    returns (r: Result<map<K, seq<V>>, E>)
    ensures r.Ok? <==> NoFatal(rows, classify)
    ensures r.Ok? ==> r.value == Group(rows, |rows|, classify)
    ensures r.Err? ==> FirstFatal(rows, classify, r.error)
  {
    var d: map<K, seq<V>> := map[];
    var i := 0;
    while i < |rows|
      invariant 0 <= i <= |rows|
      invariant forall j :: 0 <= j < i ==> !classify(rows[j]).Fatal?
      invariant d == Group(rows, i, classify)
    {
      match classify(rows[i]) {
        case Fatal(e) =>
          return Err(e);
        case Skip =>
        case Keep(kv) =>
          if kv.0 !in d {
            d := d[kv.0 := []];
          }
          d := d[kv.0 := d[kv.0] + [kv.1]];
      }
      i := i + 1;
    }
    return Ok(d);
  }

  /** Key k has a list exactly when some row was kept under k, and the list
      holds the values of those rows in row order, so it is never empty. */
  lemma {:induction false} GroupInRowOrder<K, V, E>(rows: seq<Row>, n: nat, classify: Row -> Outcome<(K, V), E>, k: K)
    requires n <= |rows|
    ensures k in Group(rows, n, classify) <==> KeptValues(rows, n, classify, k) != []
    ensures k in Group(rows, n, classify) ==> Group(rows, n, classify)[k] == KeptValues(rows, n, classify, k)
  {
    if n > 0 {
      GroupInRowOrder(rows, n - 1, classify, k);
    }
  }

  /** A value kept under k is one of the values kept by some row under k. */
  lemma {:induction false} KeptValuesFrom<K, V, E>(rows: seq<Row>, n: nat, classify: Row -> Outcome<(K, V), E>, k: K, x: V)
    requires n <= |rows|
    ensures x in KeptValues(rows, n, classify, k) <==>
      exists i :: i < n && KeptUnder(rows, classify, i, k) && classify(rows[i]).value.1 == x
  {
    if n > 0 {
      KeptValuesFrom(rows, n - 1, classify, k, x);
      if x in KeptValues(rows, n, classify, k) && x !in KeptValues(rows, n - 1, classify, k) {
        assert KeptUnder(rows, classify, n - 1, k) && classify(rows[n - 1]).value.1 == x;
      }
    }
  }
}
