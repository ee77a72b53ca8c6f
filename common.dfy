/** Vocabulary shared by the three converters: optional values, results,
    the fate of one source row, parsed CSV rows, Python dicts with their
    insertion order, and the numeric conversions the model leaves
    uninterpreted. */
module Common {

  datatype Option<+T> = None | Some(value: T) {
    /** `x if x is not None else default` */
    function GetOr(default: T): T {
      match this
      case Some(v) => v
      case None => default
    }
  }

  datatype Result<+T, +E> = Ok(value: T) | Err(error: E)

  /** What one source record does to the loop that reads it: it raises an
      exception nobody catches (the run aborts), it is passed over
      (`continue`), or it contributes a value. */
  datatype Outcome<+T, +E> = Fatal(error: E) | Skip | Keep(value: T)

  /** One row of a csv.DictReader: column name to cell text. A column the
      file does not have is a key the map does not have. */
  type Row = map<string, string>

  /** `d.get(key, default)` on a CSV row or any other dict. */
  function Get<K(==), V>(d: map<K, V>, key: K, default: V): V {
    if key in d then d[key] else default
  }

  /** Python's numeric built-ins as the converters use them, left
      uninterpreted: `int(text)`, `float(text)` (None where Python raises
      ValueError), `round(x, digits)` and the text of a float in an
      f-string. Every conversion is a function, so it is deterministic. */
  datatype Numerics = Numerics(
    parseInt: string -> Option<int>,
    parseFloat: string -> Option<real>,
    round: (real, nat) -> real,
    formatFloat: real -> string)

  /** A Python dict: its entries, and its keys in the order they were first
      inserted, which is the order `items()` and `keys()` produce. */
  datatype Dict<K(==, !new), V> = Dict(keys: seq<K>, entries: map<K, V>) {

    ghost predicate Valid() {
      && (forall i, j :: 0 <= i < j < |keys| ==> keys[i] != keys[j])
      && (forall k :: k in entries <==> k in keys)
    }

    /** `d[k] = v`: the value is replaced, and a new key goes to the end of
        the iteration order while existing keys keep their places. */
    function Put(k: K, v: V): (d: Dict<K, V>)
      ensures Valid() ==> d.Valid()
      ensures d.entries == entries[k := v]
      ensures keys <= d.keys && |d.keys| <= |keys| + 1
      ensures k in entries ==> d.keys == keys
    {
      if k in entries then Dict(keys, entries[k := v]) else Dict(keys + [k], entries[k := v])
    }

    /** Walking the keys in order, the n-th key has not been seen before. */
    lemma KeysPrefixStep(n: nat)
      requires Valid() && 0 < n <= |keys|
      ensures keys[n - 1] in entries && keys[n - 1] !in keys[..n - 1]
      ensures forall x :: x in keys[..n] <==> x in keys[..n - 1] || x == keys[n - 1]
    {
      assert keys[..n] == keys[..n - 1] + [keys[n - 1]];
    }
  }

  /** The positions below n where p holds. */
  ghost function Positions(n: nat, p: int -> bool): set<int> {
    set i | 0 <= i < n && p(i)
  }

  /** Counting one more position adds one exactly when p holds there. */
  lemma PositionsStep(n: nat, p: int -> bool)
    ensures |Positions(n + 1, p)| == |Positions(n, p)| + (if p(n) then 1 else 0)
  {
    if p(n) {
      assert Positions(n + 1, p) == Positions(n, p) + {n};
    } else {
      assert Positions(n + 1, p) == Positions(n, p);
    }
  }

  /** `{}` */
  function EmptyDict<K(==, !new), V>(): (d: Dict<K, V>)
    ensures d.Valid() && d.entries == map[] && d.keys == []
  {
    Dict([], map[])
  }
}
