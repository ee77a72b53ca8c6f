/** The FNDDS converter: each survey food of surveyDownload.json that has
    a food code and a nutrient list becomes one row of the foods table
    (plain INSERT on the primary key food_code), one row of the foods_fts
    index and a row of the portions table per usable portion. */
module Fndds {
  import opened Common
  import opened Store

  /** USDA nutrient id and foods column (NUTRIENT_COLUMNS), in declaration
      order, which is the order of the columns and of the inserted values. */
  const NutrientColumns: seq<(int, string)> := [
    (1008, "energy_kcal"),
    (1003, "protein_g"),
    (1004, "fat_g"),
    (1005, "carbohydrate_g"),
    (1079, "fiber_g"),
    (2000, "sugar_g"),
    (1258, "saturated_fat_g"),
    (1292, "monounsaturated_fat_g"),
    (1293, "polyunsaturated_fat_g"),
    (1253, "cholesterol_mg"),
    (1087, "calcium_mg"),
    (1089, "iron_mg"),
    (1090, "magnesium_mg"),
    (1091, "phosphorus_mg"),
    (1092, "potassium_mg"),
    (1093, "sodium_mg"),
    (1095, "zinc_mg"),
    (1098, "copper_mg"),
    (1103, "selenium_mcg"),
    (1162, "vitamin_c_mg"),
    (1165, "thiamin_mg"),
    (1166, "riboflavin_mg"),
    (1167, "niacin_mg"),
    (1175, "vitamin_b6_mg"),
    (1190, "folate_dfe_mcg"),
    (1178, "vitamin_b12_mcg"),
    (1106, "vitamin_a_rae_mcg"),
    (1109, "vitamin_e_mg"),
    (1114, "vitamin_d_mcg"),
    (1185, "vitamin_k_mcg"),
    (1057, "caffeine_mg"),
    (1051, "water_g")
  ]

  /** The value row has 2 + 32 entries, one per INSERT column. */
  lemma ValueRowLength(m: map<int, real>, code: int, description: string)
    ensures |NutrientColumns| == 32
    ensures |[Integer(code), Text(description)] + NutrientValues(m, NutrientColumns, |NutrientColumns|)|
      == |InsertColumns(NutrientColumns)| == 34
  {
  }

  // ----- the JSON records; None is a key the object does not have

  /** An element of foodNutrients: `nutrient.id` and `amount`. */
  datatype FoodNutrient = FoodNutrient(nutrientId: Option<int>, amount: Option<real>)

  /** An element of foodPortions: `gramWeight` and `portionDescription`. */
  datatype FoodPortion = FoodPortion(gramWeight: Option<real>, portionDescription: Option<string>)

  /** An element of SurveyFoods. */
  datatype SurveyFood = SurveyFood(
    foodCode: Option<int>,
    description: Option<string>,
    foodNutrients: Option<seq<FoodNutrient>>,
    foodPortions: Option<seq<FoodPortion>>)

  // ----- the output tables

  /** A row of the portions table; its AUTOINCREMENT id is its position. */
  datatype PortionEntry = PortionEntry(foodCode: int, description: string, gramWeight: real)

  /** The foods table keyed by food_code, the foods_fts rows
      (description, food_code), the portions rows, and the two counters. */
  datatype FnddsStore = FnddsStore(
    foods: map<int, SqlRow>,
    fts: seq<(string, int)>,
    portions: seq<PortionEntry>,
    foodCount: nat,
    portionCount: nat)

  /** The IntegrityError the plain INSERT raises on a repeated food_code;
      it aborts the run. */
  datatype FnddsError = DuplicateFoodCode(code: int)

  /** `if not food_code or not nutrients: continue`, negated: the food has a
      non-zero code and a non-empty nutrient list. Which nutrients the list
      holds plays no part. */
  predicate Included(food: SurveyFood) {
    food.foodCode.GetOr(0) != 0 && food.foodNutrients.GetOr([]) != []
  }

  // ----- nutrient_map

  /** The nutrient ids of a column list. */
  function ColumnIds(columns: seq<(int, string)>): set<int> {
    set c | c in columns :: c.0
  }

  /** Entry x sets nutrient_map[nid]: its id is present, non-zero and mapped. */
  predicate MapsNutrient(x: FoodNutrient, columns: seq<(int, string)>, nid: int) {
    x.nutrientId == Some(nid) && nid != 0 && nid in ColumnIds(columns)
  }

  /** nutrient_map after the first n entries: a mapped id gets `amount or 0`,
      a later entry overwriting an earlier one. */
  function NutrientMapAfter(ns: seq<FoodNutrient>, n: nat, columns: seq<(int, string)>): map<int, real>
    requires n <= |ns|
  {
    if n == 0 then map[]
    else
      var m := NutrientMapAfter(ns, n - 1, columns);
      var x := ns[n - 1];
      if x.nutrientId.Some? && MapsNutrient(x, columns, x.nutrientId.value) then m[x.nutrientId.value := x.amount.GetOr(0.0)]
      else m
  }

  /** The loop building nutrient_map. */
  method BuildNutrientMap(ns: seq<FoodNutrient>, columns: seq<(int, string)>) returns (m: map<int, real>)
    ensures m == NutrientMapAfter(ns, |ns|, columns)
  {
    var ids := ColumnIds(columns);
    m := map[];
    var i := 0;
    while i < |ns|
      invariant 0 <= i <= |ns|
      invariant m == NutrientMapAfter(ns, i, columns)
    {
      var nid := ns[i].nutrientId;
      if nid.Some? && nid.value != 0 && nid.value in ids {
        m := m[nid.value := ns[i].amount.GetOr(0.0)];
      }
      i := i + 1;
    }
  }

  /** nutrient_map holds a nutrient exactly when some entry sets it, with
      the amount (0 when absent) of the last such entry. */
  lemma {:induction false} NutrientMapLastWins(ns: seq<FoodNutrient>, n: nat, columns: seq<(int, string)>, nid: int)
    requires n <= |ns|
    ensures nid in NutrientMapAfter(ns, n, columns) <==> exists i :: 0 <= i < n && MapsNutrient(ns[i], columns, nid)
    ensures nid in NutrientMapAfter(ns, n, columns) ==>
      exists i :: 0 <= i < n && MapsNutrient(ns[i], columns, nid)
        && NutrientMapAfter(ns, n, columns)[nid] == ns[i].amount.GetOr(0.0)
        && forall j :: i < j < n ==> !MapsNutrient(ns[j], columns, nid)
  {
    if n > 0 {
      NutrientMapLastWins(ns, n - 1, columns, nid);
      var m := NutrientMapAfter(ns, n - 1, columns);
      var m' := NutrientMapAfter(ns, n, columns);
      if MapsNutrient(ns[n - 1], columns, nid) {
        assert m'[nid] == ns[n - 1].amount.GetOr(0.0);
      } else if nid in m {
        assert m'[nid] == m[nid];
        var i :| 0 <= i < n - 1 && MapsNutrient(ns[i], columns, nid)
          && m[nid] == ns[i].amount.GetOr(0.0)
          && forall j :: i < j < n - 1 ==> !MapsNutrient(ns[j], columns, nid);
        assert forall j :: i < j < n ==> !MapsNutrient(ns[j], columns, nid);
      } else {
        assert nid !in m';
      }
    }
  }

  // ----- the value row

  /** The columns of the INSERT: food_code, description, then the nutrient
      columns. */
  function InsertColumns(columns: seq<(int, string)>): (names: seq<string>)
    ensures |names| == 2 + |columns|
    ensures names[0] == "food_code" && names[1] == "description"
    ensures forall c :: 0 <= c < |columns| ==> names[2 + c] == columns[c].1
  {
    ["food_code", "description"] + seq(|columns|, c requires 0 <= c < |columns| => columns[c].1)
  }

  /** The values of the first n nutrient columns: `nutrient_map.get(nid, 0)`. */
  function NutrientValues(m: map<int, real>, columns: seq<(int, string)>, n: nat): (vs: seq<SqlValue>)
    requires n <= |columns|
    ensures |vs| == n
    ensures forall c :: 0 <= c < n ==> vs[c] == Real(Get(m, columns[c].0, 0.0))
  {
    if n == 0 then [] else NutrientValues(m, columns, n - 1) + [Real(Get(m, columns[n - 1].0, 0.0))]
  }

  /** `values = [food_code, description]`, then one append per column. The
      row lines up with InsertColumns: the value under each nutrient
      column is that column's nutrient amount, 0 when absent. */
  method BuildValues(code: int, description: string, m: map<int, real>, columns: seq<(int, string)>)
    returns (values: SqlRow)
    ensures values == [Integer(code), Text(description)] + NutrientValues(m, columns, |columns|)
    ensures |values| == |InsertColumns(columns)|
  {
    values := [Integer(code), Text(description)];
    for c := 0 to |columns|
      invariant values == [Integer(code), Text(description)] + NutrientValues(m, columns, c)
    {
      values := values + [Real(Get(m, columns[c].0, 0.0))];
    }
  }

  /** A food none of whose nutrients is mapped still gets a row: its
      nutrient_map stays empty and every nutrient column is 0. */
  lemma {:induction false} UnmappedNutrientsGiveZeros(ns: seq<FoodNutrient>, n: nat, columns: seq<(int, string)>)
    requires n <= |ns|
    requires forall i :: 0 <= i < n ==> ns[i].nutrientId.None? || ns[i].nutrientId.value !in ColumnIds(columns)
    ensures NutrientMapAfter(ns, n, columns) == map[]
    ensures forall c :: 0 <= c < |columns| ==> NutrientValues(NutrientMapAfter(ns, n, columns), columns, |columns|)[c] == Real(0.0)
  {
    if n > 0 {
      UnmappedNutrientsGiveZeros(ns, n - 1, columns);
    }
  }

  // ----- portions

  /** Portion p is written: `gram_weight > 0 and portion_desc`, with
      gramWeight defaulting to 0 and portionDescription to "". */
  predicate UsablePortion(p: FoodPortion) {
    p.gramWeight.GetOr(0.0) > 0.0 && p.portionDescription.GetOr("") != ""
  }

  /** The portion rows written for the first n portions of food `code`. */
  function PortionRows(code: int, ps: seq<FoodPortion>, n: nat): (rows: seq<PortionEntry>)
    requires n <= |ps|
    ensures |rows| <= n
    ensures forall r :: r in rows ==> r.foodCode == code && r.gramWeight > 0.0 && r.description != ""
  {
    if n == 0 then []
    else
      var p := ps[n - 1];
      PortionRows(code, ps, n - 1)
        + if UsablePortion(p) then [PortionEntry(code, p.portionDescription.value, p.gramWeight.value)] else []
  }

  /** Portion p carries description d and gram weight w. */
  predicate Carries(p: FoodPortion, d: string, w: real) {
    p.portionDescription == Some(d) && p.gramWeight == Some(w)
  }

  /** A row (code, d, w) is written exactly when one of the first n
      portions is usable and carries d and w: no usable portion is lost. */
  lemma {:induction false} PortionRowsComplete(code: int, ps: seq<FoodPortion>, n: nat, d: string, w: real)
    requires n <= |ps|
    ensures PortionEntry(code, d, w) in PortionRows(code, ps, n) <==>
      exists j :: 0 <= j < n && UsablePortion(ps[j]) && Carries(ps[j], d, w)
  {
    if n > 0 {
      PortionRowsComplete(code, ps, n - 1, d, w);
      var p := ps[n - 1];
      if UsablePortion(p) && Carries(p, d, w) {
        assert PortionRows(code, ps, n)[|PortionRows(code, ps, n)| - 1] == PortionEntry(code, d, w);
      }
    }
  }

  /** Position j of ps holds a usable portion. */
  function UsableAt(ps: seq<FoodPortion>): int -> bool {
    j => 0 <= j < |ps| && UsablePortion(ps[j])
  }

  /** One row is written per usable portion. */
  lemma {:induction false} PortionRowsCount(code: int, ps: seq<FoodPortion>, n: nat)
    requires n <= |ps|
    ensures |PortionRows(code, ps, n)| == |Positions(n, UsableAt(ps))|
  {
    if n > 0 {
      PortionRowsCount(code, ps, n - 1);
      PositionsStep(n - 1, UsableAt(ps));
    }
  }

  // ----- the food loop

  function EmptyStore(): FnddsStore {
    FnddsStore(map[], [], [], 0, 0)
  }

  /** The foods row of an included food. Its description is the food's,
      or "" when absent (an empty description is stored like any other). */
  function FoodValues(food: SurveyFood, columns: seq<(int, string)>): (values: SqlRow)
    requires Included(food)
    ensures |values| == 2 + |columns|
    ensures values[0] == Integer(food.foodCode.value)
    ensures values[1] == Text(food.description.GetOr(""))
  {
    var nutrients := food.foodNutrients.value;
    [Integer(food.foodCode.value), Text(food.description.GetOr(""))]
      + NutrientValues(NutrientMapAfter(nutrients, |nutrients|, columns), columns, |columns|)
  }

  /** The food row, FTS row and portion rows of an included food. */
  function FoodStep(s: FnddsStore, food: SurveyFood, columns: seq<(int, string)>): Result<FnddsStore, FnddsError>
    requires Included(food)
  {
    var code := food.foodCode.value;
    var description := food.description.GetOr("");
    var ps := food.foodPortions.GetOr([]);
    var written := PortionRows(code, ps, |ps|);
    match Insert(s.foods, code, FoodValues(food, columns))
    case None => Err(DuplicateFoodCode(code))
    case Some(foods) =>
      Ok(FnddsStore(foods, s.fts + [(description, code)], s.portions + written,
        s.foodCount + 1, s.portionCount + |written|))
  }

  /** The outcome after the first n foods: skipped foods change nothing,
      and the first repeated food_code aborts. */
  function Converted(foods: seq<SurveyFood>, n: nat, columns: seq<(int, string)>): Result<FnddsStore, FnddsError>
    requires n <= |foods|
  {
    if n == 0 then Ok(EmptyStore())
    else match Converted(foods, n - 1, columns)
      case Err(e) => Err(e)
      case Ok(s) => if Included(foods[n - 1]) then FoodStep(s, foods[n - 1], columns) else Ok(s)
  }

  /** The loop over the portions of the current food. */
  method InsertPortions(s: FnddsStore, code: int, ps: seq<FoodPortion>) returns (s': FnddsStore)
    ensures s' == s.(portions := s.portions + PortionRows(code, ps, |ps|),
                     portionCount := s.portionCount + |PortionRows(code, ps, |ps|)|)
  {
    s' := s;
    var j := 0;
    while j < |ps|
      invariant 0 <= j <= |ps|
      invariant s' == s.(portions := s.portions + PortionRows(code, ps, j),
                         portionCount := s.portionCount + |PortionRows(code, ps, j)|)
    {
      var p := ps[j];
      var gramWeight := p.gramWeight.GetOr(0.0);
      var portionDesc := p.portionDescription.GetOr("");
      if gramWeight > 0.0 && portionDesc != "" {
        s' := s'.(portions := s'.portions + [PortionEntry(code, portionDesc, gramWeight)],
                  portionCount := s'.portionCount + 1);
      }
      j := j + 1;
    }
  }

  /** The body of the food loop for an included food: build nutrient_map
      and the values, insert the food (failing on a known code), its FTS
      row and its portions, and count it. */
  method ConvertFood(s: FnddsStore, food: SurveyFood, columns: seq<(int, string)>)
    returns (r: Result<FnddsStore, FnddsError>)
    requires Included(food)
    ensures r == FoodStep(s, food, columns)
  {
    var code := food.foodCode.value;
    var description := food.description.GetOr("");
    var nutrientMap := BuildNutrientMap(food.foodNutrients.value, columns);
    var values := BuildValues(code, description, nutrientMap, columns);
    if code in s.foods {
      return Err(DuplicateFoodCode(code));
    }
    var s' := s.(foods := s.foods[code := values]);
    s' := s'.(fts := s'.fts + [(description, code)]);
    s' := InsertPortions(s', code, food.foodPortions.GetOr([]));
    s' := s'.(foodCount := s'.foodCount + 1);
    return Ok(s');
  }

  /** The food loop of main, over the survey foods in file order. */
  method ConvertFndds(foods: seq<SurveyFood>) returns (r: Result<FnddsStore, FnddsError>)
    ensures r == Converted(foods, |foods|, NutrientColumns)
  {
    var s := EmptyStore();
    var i := 0;
    while i < |foods|
      invariant 0 <= i <= |foods|
      invariant Converted(foods, i, NutrientColumns) == Ok(s)
    {
      var food := foods[i];
      if food.foodCode.GetOr(0) != 0 && food.foodNutrients.GetOr([]) != [] {
        var next := ConvertFood(s, food, NutrientColumns);
        if next.Err? {
          AbortIsFinal(foods, i + 1, |foods|, NutrientColumns);
          return next;
        }
        s := next.value;
      }
      i := i + 1;
    }
    return Ok(s);
  }

  // ----- what the run guarantees

  /** Once a repeated code has aborted the run, later foods change nothing. */
  lemma {:induction false} AbortIsFinal(foods: seq<SurveyFood>, n: nat, m: nat, columns: seq<(int, string)>)
    requires n <= m <= |foods|
    requires Converted(foods, n, columns).Err?
    ensures Converted(foods, m, columns) == Converted(foods, n, columns)
  {
    if n < m {
      AbortIsFinal(foods, n, m - 1, columns);
    }
  }

  /** The first n foods have pairwise distinct codes among the included ones. */
  ghost predicate DistinctCodes(foods: seq<SurveyFood>, n: nat)
    requires n <= |foods|
  {
    forall i, j :: 0 <= i < j < n && Included(foods[i]) && Included(foods[j]) ==> foods[i].foodCode != foods[j].foodCode
  }

  /** Food `code` is among the included foods of the first n. */
  ghost predicate IncludedCode(foods: seq<SurveyFood>, n: nat, code: int)
    requires n <= |foods|
  {
    exists i :: 0 <= i < n && Included(foods[i]) && foods[i].foodCode == Some(code)
  }

  /** The run succeeds exactly when no two included foods share a code,
      and the foods table then holds exactly the included codes. */
  lemma {:induction false} SucceedsIffCodesDistinct(foods: seq<SurveyFood>, n: nat, columns: seq<(int, string)>)
    requires n <= |foods|
    ensures Converted(foods, n, columns).Ok? <==> DistinctCodes(foods, n)
    ensures Converted(foods, n, columns).Ok? ==>
      forall code :: code in Converted(foods, n, columns).value.foods <==> IncludedCode(foods, n, code)
  {
    if n > 0 {
      SucceedsIffCodesDistinct(foods, n - 1, columns);
      var prev := Converted(foods, n - 1, columns);
      if prev.Err? {
        assert !DistinctCodes(foods, n - 1);
      } else if Included(foods[n - 1]) {
        var code := foods[n - 1].foodCode.value;
        if code in prev.value.foods {
          assert IncludedCode(foods, n - 1, code);
          var i :| 0 <= i < n - 1 && Included(foods[i]) && foods[i].foodCode == Some(code);
          assert !DistinctCodes(foods, n);
        } else {
          forall i, j | 0 <= i < j < n && Included(foods[i]) && Included(foods[j])
            ensures foods[i].foodCode != foods[j].foodCode
          {
            if j == n - 1 {
              assert IncludedCode(foods, n - 1, foods[i].foodCode.value);
            }
          }
          forall c
            ensures c in Converted(foods, n, columns).value.foods <==> IncludedCode(foods, n, c)
          {
            if IncludedCode(foods, n, c) && c != code {
              var i :| 0 <= i < n && Included(foods[i]) && foods[i].foodCode == Some(c);
              assert IncludedCode(foods, n - 1, c);
            }
          }
        }
      } else {
        forall c
          ensures IncludedCode(foods, n, c) ==> IncludedCode(foods, n - 1, c)
        {
          if IncludedCode(foods, n, c) {
            var i :| 0 <= i < n && Included(foods[i]) && foods[i].foodCode == Some(c);
            assert i < n - 1;
          }
        }
      }
    }
  }

  /** The counters equal the row counts: one foods row and one FTS row per
      counted food, one portions row per counted portion. */
  lemma {:induction false} CountersMatchTables(foods: seq<SurveyFood>, n: nat, columns: seq<(int, string)>)
    requires n <= |foods|
    ensures Converted(foods, n, columns).Ok? ==>
      var s := Converted(foods, n, columns).value;
      |s.fts| == |s.foods| == s.foodCount && s.portionCount == |s.portions|
  {
    if n > 0 {
      CountersMatchTables(foods, n - 1, columns);
    }
  }

  /** Every foods row is food_code, description and one value per nutrient
      column, lining up with InsertColumns. */
  lemma {:induction false} FoodRowsShaped(foods: seq<SurveyFood>, n: nat, columns: seq<(int, string)>)
    requires n <= |foods|
    ensures Converted(foods, n, columns).Ok? ==>
      var s := Converted(foods, n, columns).value;
      forall code :: code in s.foods ==> |s.foods[code]| == |InsertColumns(columns)| && s.foods[code][0] == Integer(code)
  {
    if n > 0 {
      FoodRowsShaped(foods, n - 1, columns);
      var prev := Converted(foods, n - 1, columns);
      if prev.Ok? && Included(foods[n - 1]) && Converted(foods, n, columns).Ok? {
        var code := foods[n - 1].foodCode.value;
        var row := FoodValues(foods[n - 1], columns);
        var t := prev.value.foods[code := row];
        assert Converted(foods, n, columns).value.foods == t;
        forall c | c in t
          ensures |t[c]| == |InsertColumns(columns)| && t[c][0] == Integer(c)
        {
          if c != code {
            assert t[c] == prev.value.foods[c];
          }
        }
      }
    }
  }

  /** The FTS index mirrors the foods table: each FTS row carries the code
      and description of a stored food, and no food is indexed twice. */
  ghost predicate FtsMirrors(s: FnddsStore) {
    && (forall k :: 0 <= k < |s.fts| ==>
          s.fts[k].1 in s.foods && |s.foods[s.fts[k].1]| > 1 && s.foods[s.fts[k].1][1] == Text(s.fts[k].0))
    && (forall k, l :: 0 <= k < l < |s.fts| ==> s.fts[k].1 != s.fts[l].1)
  }

  /** A successful run leaves the FTS index mirroring the foods table. */
  lemma {:induction false} FtsMirrorsFoods(foods: seq<SurveyFood>, n: nat, columns: seq<(int, string)>)
    requires n <= |foods|
    ensures Converted(foods, n, columns).Ok? ==> FtsMirrors(Converted(foods, n, columns).value)
  {
    if n > 0 {
      FtsMirrorsFoods(foods, n - 1, columns);
      var prev := Converted(foods, n - 1, columns);
      if prev.Ok? && Included(foods[n - 1]) && Converted(foods, n, columns).Ok? {
        var s, s' := prev.value, Converted(foods, n, columns).value;
        var code := foods[n - 1].foodCode.value;
        assert s'.foods == s.foods[code := FoodValues(foods[n - 1], columns)];
        assert s'.fts == s.fts + [(foods[n - 1].description.GetOr(""), code)];
        forall k | 0 <= k < |s'.fts|
          ensures s'.fts[k].1 in s'.foods && |s'.foods[s'.fts[k].1]| > 1 && s'.foods[s'.fts[k].1][1] == Text(s'.fts[k].0)
        {
          if k < |s.fts| {
            assert s'.fts[k] == s.fts[k];
          }
        }
      }
    }
  }

  /** Every portion row references a food of the table and has a positive
      weight and a description. */
  lemma {:induction false} PortionsReferenceFoods(foods: seq<SurveyFood>, n: nat, columns: seq<(int, string)>)
    requires n <= |foods|
    ensures Converted(foods, n, columns).Ok? ==>
      var s := Converted(foods, n, columns).value;
      forall r :: r in s.portions ==> r.foodCode in s.foods && r.gramWeight > 0.0 && r.description != ""
  {
    if n > 0 {
      PortionsReferenceFoods(foods, n - 1, columns);
    }
  }

  /** In a successful run every included food has its own row in the
      foods table, built from its description and nutrients. */
  lemma {:induction false} StoredFoodRows(foods: seq<SurveyFood>, n: nat, columns: seq<(int, string)>)
    requires n <= |foods|
    ensures Converted(foods, n, columns).Ok? ==>
      forall i :: 0 <= i < n && Included(foods[i]) ==>
        foods[i].foodCode.value in Converted(foods, n, columns).value.foods
        && Converted(foods, n, columns).value.foods[foods[i].foodCode.value] == FoodValues(foods[i], columns)
  {
    if n > 0 {
      StoredFoodRows(foods, n - 1, columns);
    }
  }
}
