/** build_database of the SR Legacy converter: join the loaded dicts into
    one entry per food that has nutrient data, then sort the entries by
    lower-cased name with Python's stable sort. Also the converter's
    driver, which runs the loaders in the order `main` does. */
module SrBuild {
  import opened Common
  import opened Strings
  import opened Folds
  import opened SrLoad

  /** One food of the output JSON list. `category` and `portions` are
      absent keys when None. */
  datatype Entry = Entry(
    id: int,
    name: string,
    category: Option<string>,
    nutrients: map<string, real>,
    portions: Option<seq<Portion>>)

  /** `cat_id = food_cats.get(fdc_id)` followed by `if cat_id and cat_id in
      categories`: a missing or zero category id gives no category. */
  function CategoryOf(id: int, categories: map<int, string>, foodCats: map<int, int>): (r: Option<string>)
  {
    if id in foodCats && foodCats[id] != 0 && foodCats[id] in categories then Some(categories[foodCats[id]])
    else None
  }

  /** The entry built for food `id` named `name`. */
  function EntryOf(id: int, name: string, categories: map<int, string>, foodCats: map<int, int>,
                   nutrients: map<int, map<string, real>>, portions: map<int, seq<Portion>>): (e: Entry)
    requires id in nutrients
    ensures e.id == id && e.name == name && e.nutrients == nutrients[id]
    ensures e.category.Some? <==> id in foodCats && foodCats[id] != 0 && foodCats[id] in categories
    ensures e.category.Some? ==> e.category.value == categories[foodCats[id]]
    ensures e.portions.Some? <==> id in portions
    ensures e.portions.Some? ==> e.portions.value == portions[id]
  {
    Entry(id, name, CategoryOf(id, categories, foodCats), nutrients[id],
      if id in portions then Some(portions[id]) else None)
  }

  /** What the loop appends for food `id`: its entry when it has nutrient
      data, nothing otherwise. */
  function Appended(foods: Dict<int, string>, id: int, categories: map<int, string>, foodCats: map<int, int>,
                    nutrients: map<int, map<string, real>>, portions: map<int, seq<Portion>>): seq<Entry>
  {
    if id in nutrients && id in foods.entries then [EntryOf(id, foods.entries[id], categories, foodCats, nutrients, portions)]
    else []
  }

  /** `db` before sorting, after the first n foods in the foods dict's
      order. */
  ghost function Unsorted(foods: Dict<int, string>, n: nat, categories: map<int, string>, foodCats: map<int, int>,
                          nutrients: map<int, map<string, real>>, portions: map<int, seq<Portion>>): seq<Entry>
    requires n <= |foods.keys|
  {
    if n == 0 then []
    else
      Unsorted(foods, n - 1, categories, foodCats, nutrients, portions)
        + Appended(foods, foods.keys[n - 1], categories, foodCats, nutrients, portions)
  }

  /** e belongs in the output: it is the entry built for a food that has
      nutrient data. */
  ghost predicate Accepted(foods: Dict<int, string>, categories: map<int, string>, foodCats: map<int, int>,
                           nutrients: map<int, map<string, real>>, portions: map<int, seq<Portion>>, e: Entry)
  {
    e.id in foods.entries && e.id in nutrients
      && e == EntryOf(e.id, foods.entries[e.id], categories, foodCats, nutrients, portions)
  }

  /** e is the entry built for a food, among
      the first n of the foods dict, that has nutrient data. */
  ghost predicate AcceptedAmong(foods: Dict<int, string>, n: nat, categories: map<int, string>, foodCats: map<int, int>,
                                nutrients: map<int, map<string, real>>, portions: map<int, seq<Portion>>, e: Entry)
    requires n <= |foods.keys| && foods.Valid()
  {
    e.id in foods.keys[..n] && Accepted(foods, categories, foodCats, nutrients, portions, e)
  }

  // ----- the sort: `db.sort(key=lambda x: x["name"].lower())`

  /** The sort key. */
  function Key(e: Entry): string {
    Lower(e.name)
  }

  ghost predicate SortedByName(s: seq<Entry>) {
    forall i, j :: 0 <= i < j < |s| ==> LexLe(Key(s[i]), Key(s[j]))
  }

  /** The entries of s whose key is k, in order. */
  function WithKey(s: seq<Entry>, k: string): (r: seq<Entry>)
    ensures |r| <= |s|
  {
    if s == [] then []
    else WithKey(s[..|s| - 1], k) + if Key(s[|s| - 1]) == k then [s[|s| - 1]] else []
  }

  /** Insert x into s behind every entry whose key is not above x's: x goes
      after the entries with an equal key, as a stable sort places a later
      element. */
  function InsertByName(s: seq<Entry>, x: Entry): (r: seq<Entry>)
    ensures multiset(r) == multiset(s) + multiset{x}
  {
    if s == [] || LexLe(Key(s[|s| - 1]), Key(x)) then s + [x]
    else
      assert s == s[..|s| - 1] + [s[|s| - 1]];
      InsertByName(s[..|s| - 1], x) + [s[|s| - 1]]
  }

  /** Stable insertion sort by key: the result of Python's `list.sort`
      with that key. */
  function SortByName(s: seq<Entry>): (r: seq<Entry>)
    ensures multiset(r) == multiset(s)
  {
    if s == [] then []
    else
      assert s == s[..|s| - 1] + [s[|s| - 1]];
      InsertByName(SortByName(s[..|s| - 1]), s[|s| - 1])
  }

  lemma {:induction false} WithKeyAppend(a: seq<Entry>, b: seq<Entry>, k: string)
    ensures WithKey(a + b, k) == WithKey(a, k) + WithKey(b, k)
    decreases |b|
  {
    if b == [] {
      assert a + b == a;
    } else {
      assert (a + b)[..|a + b| - 1] == a + b[..|b| - 1];
      WithKeyAppend(a, b[..|b| - 1], k);
    }
  }

  /** Appending an entry no smaller than every element keeps a sequence sorted. */
  lemma AppendAboveAll(t: seq<Entry>, y: Entry)
    requires SortedByName(t)
    requires forall i :: 0 <= i < |t| ==> LexLe(Key(t[i]), Key(y))
    ensures SortedByName(t + [y])
  {
    var r := t + [y];
    forall i, j | 0 <= i < j < |r|
      ensures LexLe(Key(r[i]), Key(r[j]))
    {
      if j < |t| {
        assert r[i] == t[i] && r[j] == t[j];
      }
    }
  }

  lemma {:induction false} InsertSorted(s: seq<Entry>, x: Entry)
    requires SortedByName(s)
    ensures SortedByName(InsertByName(s, x))
    decreases |s|
  {
    if s == [] || LexLe(Key(s[|s| - 1]), Key(x)) {
      forall i | 0 <= i < |s|
        ensures LexLe(Key(s[i]), Key(x))
      {
        if i < |s| - 1 {
          LexLeTransitive(Key(s[i]), Key(s[|s| - 1]), Key(x));
        }
      }
      AppendAboveAll(s, x);
    } else {
      var init, last := s[..|s| - 1], s[|s| - 1];
      InsertSorted(init, x);
      LexLeTotal(Key(last), Key(x));
      var t := InsertByName(init, x);
      forall i | 0 <= i < |t|
        ensures LexLe(Key(t[i]), Key(last))
      {
        assert t[i] in multiset(t);
        if t[i] != x {
          assert t[i] in multiset(init);
          var m :| 0 <= m < |init| && init[m] == t[i];
          assert s[m] == t[i];
        }
      }
      AppendAboveAll(t, last);
    }
  }

  lemma WithKeySingle(x: Entry, k: string)
    ensures WithKey([x], k) == if Key(x) == k then [x] else []
  {
    assert [x][..0] == [];
  }

  lemma SwapEmpty(a: seq<Entry>, b: seq<Entry>, c: seq<Entry>)
    requires b == [] || c == []
    ensures a + b + c == a + c + b
  {
    if b == [] {
      assert a + b == a && c + b == c;
    } else {
      assert a + c == a && b + c == b;
    }
  }

  lemma {:induction false} InsertKeepsOrder(s: seq<Entry>, x: Entry, k: string)
    ensures WithKey(InsertByName(s, x), k) == WithKey(s, k) + WithKey([x], k)
    decreases |s|
  {
    if s == [] || LexLe(Key(s[|s| - 1]), Key(x)) {
      WithKeyAppend(s, [x], k);
    } else {
      var init, last := s[..|s| - 1], s[|s| - 1];
      var t := InsertByName(init, x);
      assert InsertByName(s, x) == t + [last];
      InsertKeepsOrder(init, x, k);
      WithKeyAppend(t, [last], k);
      var a, wx, wl := WithKey(init, k), WithKey([x], k), WithKey([last], k);
      WithKeySingle(x, k);
      WithKeySingle(last, k);
      assert WithKey(s, k) == a + wl;
      assert wx == [] || wl == [] by {
        if Key(x) == k && Key(last) == k {
          LexLeReflexive(k);
        }
      }
      assert WithKey(InsertByName(s, x), k) == a + wx + wl;
      SwapEmpty(a, wx, wl);
    }
  }

  /** The sort orders by lower-cased name. */
  lemma {:induction false} SortIsSorted(s: seq<Entry>)
    ensures SortedByName(SortByName(s))
  {
    if s != [] {
      SortIsSorted(s[..|s| - 1]);
      InsertSorted(SortByName(s[..|s| - 1]), s[|s| - 1]);
    }
  }

  /** The sort is stable: the entries sharing a key keep their relative
      order. */
  lemma {:induction false} SortIsStable(s: seq<Entry>, k: string)
    ensures WithKey(SortByName(s), k) == WithKey(s, k)
  {
    if s != [] {
      var init, last := s[..|s| - 1], s[|s| - 1];
      SortIsStable(init, k);
      InsertKeepsOrder(SortByName(init), last, k);
      WithKeySingle(last, k);
    }
  }

  // ----- build_database

  /** The loop of build_database over `foods.items()`, then the sort. What
      the result holds is DatabaseEntries and DatabaseOrder. */
  method BuildDatabase(foods: Dict<int, string>, categories: map<int, string>, foodCats: map<int, int>,
                       nutrients: map<int, map<string, real>>, portions: map<int, seq<Portion>>)
    returns (db: seq<Entry>)
    requires foods.Valid()
    ensures db == SortByName(Unsorted(foods, |foods.keys|, categories, foodCats, nutrients, portions))
  {
    db := [];
    var i := 0;
    while i < |foods.keys|
      invariant 0 <= i <= |foods.keys|
      invariant db == Unsorted(foods, i, categories, foodCats, nutrients, portions)
    {
      var id := foods.keys[i];
      assert id in foods.entries;
      var name := foods.entries[id];
      if id in nutrients {
        var category: Option<string> := None;
        var catId := if id in foodCats then Some(foodCats[id]) else None;
        if catId.Some? && catId.value != 0 && catId.value in categories {
          category := Some(categories[catId.value]);
        }
        var entryPortions: Option<seq<Portion>> := None;
        if id in portions {
          entryPortions := Some(portions[id]);
        }
        db := db + [Entry(id, name, category, nutrients[id], entryPortions)];
      }
      i := i + 1;
    }
    db := SortByName(db);
  }

  /** The database lists each food that has nutrient data exactly once,
      with the entry the join builds for it, and nothing else. */
  lemma DatabaseEntries(foods: Dict<int, string>, categories: map<int, string>, foodCats: map<int, int>,
                        nutrients: map<int, map<string, real>>, portions: map<int, seq<Portion>>, e: Entry)
    requires foods.Valid()
    ensures multiset(SortByName(Unsorted(foods, |foods.keys|, categories, foodCats, nutrients, portions)))[e]
      == if Accepted(foods, categories, foodCats, nutrients, portions, e) then 1 else 0
  {
    assert foods.keys[..|foods.keys|] == foods.keys;
    UnsortedIsAccepted(foods, |foods.keys|, categories, foodCats, nutrients, portions, e);
  }

  /** The database is ordered by lower-cased name, and entries whose names
      agree up to case keep the foods dict's order. */
  lemma DatabaseOrder(foods: Dict<int, string>, categories: map<int, string>, foodCats: map<int, int>,
                      nutrients: map<int, map<string, real>>, portions: map<int, seq<Portion>>)
    requires foods.Valid()
    ensures var unsorted := Unsorted(foods, |foods.keys|, categories, foodCats, nutrients, portions);
      && SortedByName(SortByName(unsorted))
      && forall k :: WithKey(SortByName(unsorted), k) == WithKey(unsorted, k)
  {
    var unsorted := Unsorted(foods, |foods.keys|, categories, foodCats, nutrients, portions);
    SortIsSorted(unsorted);
    forall k {
      SortIsStable(unsorted, k);
    }
  }

  /** What the loop appends for food `id` holds e exactly when e is the
      accepted entry with that id. */
  lemma AppendedCount(foods: Dict<int, string>, id: int, categories: map<int, string>, foodCats: map<int, int>,
                      nutrients: map<int, map<string, real>>, portions: map<int, seq<Portion>>, e: Entry)
    ensures multiset(Appended(foods, id, categories, foodCats, nutrients, portions))[e]
      == if e.id == id && Accepted(foods, categories, foodCats, nutrients, portions, e) then 1 else 0
  {
    if e.id == id && Accepted(foods, categories, foodCats, nutrients, portions, e) {
      assert Appended(foods, id, categories, foodCats, nutrients, portions) == [e];
    }
  }

  /** Before sorting, `db` holds each accepted entry of the first n foods
      exactly once and nothing else. */
  lemma {:induction false} UnsortedIsAccepted(foods: Dict<int, string>, n: nat, categories: map<int, string>, foodCats: map<int, int>,
                                              nutrients: map<int, map<string, real>>, portions: map<int, seq<Portion>>, e: Entry)
    requires n <= |foods.keys| && foods.Valid()
    ensures multiset(Unsorted(foods, n, categories, foodCats, nutrients, portions))[e]
      == if AcceptedAmong(foods, n, categories, foodCats, nutrients, portions, e) then 1 else 0
  {
    if n > 0 {
      UnsortedIsAccepted(foods, n - 1, categories, foodCats, nutrients, portions, e);
      var id := foods.keys[n - 1];
      AppendedCount(foods, id, categories, foodCats, nutrients, portions, e);
      foods.KeysPrefixStep(n);
    }
  }

  // ----- main, without the download, the extraction and the file output

  /** The fdc_ids load_foods reads from food.csv: `set(foods.keys())`. */
  ghost function FoodIds(foodRows: seq<Row>, num: Numerics): set<int> {
    Collect(foodRows, |foodRows|, FoodRowOf(num)).entries.Keys
  }

  /** The database `main` writes when no loader raises. */
  ghost function Database(foodRows: seq<Row>, categoryRows: seq<Row>, nutrientRows: seq<Row>, portionRows: seq<Row>,
                          num: Numerics): seq<Entry>
  {
    var foods := Collect(foodRows, |foodRows|, FoodRowOf(num));
    var foodIds := FoodIds(foodRows, num);
    CollectLastWins(foodRows, |foodRows|, FoodRowOf(num), 0);
    SortByName(Unsorted(foods, |foods.keys|,
      Collect(categoryRows, |categoryRows|, CategoryRowOf(num)).entries,
      Collect(foodRows, |foodRows|, FoodCategoryRowOf(num)).entries,
      Nest(nutrientRows, |nutrientRows|, NutrientRowOf(foodIds, NutrientMap, num)),
      Group(portionRows, |portionRows|, PortionRowOf(foodIds, num))))
  }

  /** The steps of `main` between extraction and output: food.csv is read
      twice (foods, then their categories), food_category.csv once,
      food_nutrient.csv and food_portion.csv against the loaded food ids.
      The first loader that raises aborts the run with its error. */
  method ConvertSrLegacy(foodRows: seq<Row>, categoryRows: seq<Row>, nutrientRows: seq<Row>, portionRows: seq<Row>,
                         num: Numerics)
    returns (r: Result<seq<Entry>, LoadError>)
    ensures r.Ok? <==>
      && NoFatal(foodRows, FoodRowOf(num))
      && NoFatal(categoryRows, CategoryRowOf(num))
      && NoFatal(foodRows, FoodCategoryRowOf(num))
      && NoFatal(nutrientRows, NutrientRowOf(FoodIds(foodRows, num), NutrientMap, num))
      && NoFatal(portionRows, PortionRowOf(FoodIds(foodRows, num), num))
    ensures r.Ok? ==> r.value == Database(foodRows, categoryRows, nutrientRows, portionRows, num)
    ensures r.Err? && !NoFatal(foodRows, FoodRowOf(num)) ==> FirstFatal(foodRows, FoodRowOf(num), r.error)
    ensures r.Err? && NoFatal(foodRows, FoodRowOf(num)) ==>
      || FirstFatal(categoryRows, CategoryRowOf(num), r.error)
      || (NoFatal(categoryRows, CategoryRowOf(num)) && FirstFatal(foodRows, FoodCategoryRowOf(num), r.error))
      || (NoFatal(categoryRows, CategoryRowOf(num)) && NoFatal(foodRows, FoodCategoryRowOf(num))
        && FirstFatal(nutrientRows, NutrientRowOf(FoodIds(foodRows, num), NutrientMap, num), r.error))
      || (NoFatal(categoryRows, CategoryRowOf(num)) && NoFatal(foodRows, FoodCategoryRowOf(num))
        && NoFatal(nutrientRows, NutrientRowOf(FoodIds(foodRows, num), NutrientMap, num))
        && FirstFatal(portionRows, PortionRowOf(FoodIds(foodRows, num), num), r.error))
  {
    var foods := CollectRows(foodRows, FoodRowOf(num));
    if foods.Err? {
      return Err(foods.error);
    }
    var categories := CollectRows(categoryRows, CategoryRowOf(num));
    if categories.Err? {
      return Err(categories.error);
    }
    var foodCats := CollectRows(foodRows, FoodCategoryRowOf(num));
    if foodCats.Err? {
      return Err(foodCats.error);
    }
    var foodIds := foods.value.entries.Keys;
    var nutrients := NestRows(nutrientRows, NutrientRowOf(foodIds, NutrientMap, num));
    if nutrients.Err? {
      return Err(nutrients.error);
    }
    var portions := GroupRows(portionRows, PortionRowOf(foodIds, num));
    if portions.Err? {
      return Err(portions.error);
    }
    CollectLastWins(foodRows, |foodRows|, FoodRowOf(num), 0);
    var db := BuildDatabase(foods.value, categories.value.entries, foodCats.value.entries, nutrients.value, portions.value);
    return Ok(db);
  }
}
