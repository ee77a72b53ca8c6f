/** The CSV loaders of the SR Legacy converter: food.csv, food_category.csv,
    food_nutrient.csv and food_portion.csv, each read row by row into a
    dict keyed by a numeric id. What each loader does with one row is a
    classifier below; the loop around it is Folds.CollectRows,
    Folds.NestRows or Folds.GroupRows. */
module SrLoad {
  import opened Common
  import opened Strings
  import opened Folds

  /** USDA nutrient id to the field name of the app's nutrient record
      (NUTRIENT_MAP). */
  const NutrientMap: map<int, string> := map[
    1008 := "calories",
    1004 := "totalFat",
    1258 := "saturatedFat",
    1292 := "monounsaturatedFat",
    1293 := "polyunsaturatedFat",
    1003 := "protein",
    1005 := "carbohydrates",
    1079 := "fiber",
    2000 := "sugar",
    1253 := "cholesterol",
    1106 := "vitaminA",
    1175 := "vitaminB6",
    1178 := "vitaminB12",
    1162 := "vitaminC",
    1114 := "vitaminD",
    1109 := "vitaminE",
    1185 := "vitaminK",
    1165 := "thiamin",
    1166 := "riboflavin",
    1167 := "niacin",
    1177 := "folate",
    1176 := "biotin",
    1170 := "pantothenicAcid",
    1087 := "calcium",
    1089 := "iron",
    1090 := "magnesium",
    1101 := "manganese",
    1091 := "phosphorus",
    1092 := "potassium",
    1093 := "sodium",
    1095 := "zinc",
    1096 := "chromium",
    1098 := "copper",
    1100 := "iodine",
    1102 := "molybdenum",
    1103 := "selenium",
    1088 := "chloride",
    1051 := "water",
    1057 := "caffeine"
  ]

  /** The exceptions that abort the SR Legacy run: `row[column]` on a
      missing column (KeyError) and `int(text)` on a non-integer
      (ValueError). */
  datatype LoadError = MissingColumn(column: string) | NotAnInteger(column: string, text: string)

  /** `int(row[column])` */
  function IntCell(row: Row, column: string, num: Numerics): (r: Result<int, LoadError>)
    ensures r.Ok? <==> column in row && num.parseInt(row[column]).Some?
    ensures r.Ok? ==> r.value == num.parseInt(row[column]).value
  {
    if column !in row then Err(MissingColumn(column))
    else match num.parseInt(row[column])
      case None => Err(NotAnInteger(column, row[column]))
      case Some(n) => Ok(n)
  }

  // ----- load_foods: {fdc_id: description}

  /** One food.csv row in load_foods: `foods[int(row['fdc_id'])] = row['description']`.
      No row is passed over: each one is stored or aborts the run. */
  function FoodRow(row: Row, num: Numerics): (r: Outcome<(int, string), LoadError>)
    ensures !r.Skip?
    ensures r.Keep? <==> IntCell(row, "fdc_id", num).Ok? && "description" in row
    ensures r.Keep? ==> r.value == (num.parseInt(row["fdc_id"]).value, row["description"])
  {
    match IntCell(row, "fdc_id", num)
    case Err(e) => Fatal(e)
    case Ok(id) =>
      if "description" in row then Keep((id, row["description"])) else Fatal(MissingColumn("description"))
  }

  function FoodRowOf(num: Numerics): Row -> Outcome<(int, string), LoadError> {
    row => FoodRow(row, num)
  }

  /** Row `row` is stored under fdc_id `id`. */
  predicate StoresFood(row: Row, num: Numerics, id: int) {
    var r := FoodRow(row, num);
    r.Keep? && r.value.0 == id
  }

  /** The foods dict load_foods returns: an fdc_id is a key exactly when
      some row carries it, and it maps to the description of the last such
      row. */
  lemma FoodsLastRowWins(rows: seq<Row>, num: Numerics, id: int)
    ensures var d := Collect(rows, |rows|, FoodRowOf(num));
      (id in d.entries) <==> exists i :: 0 <= i < |rows| && StoresFood(rows[i], num, id)
    ensures var d := Collect(rows, |rows|, FoodRowOf(num));
      id in d.entries ==>
        exists i :: 0 <= i < |rows| && FoodRow(rows[i], num) == Keep((id, d.entries[id]))
          && forall j :: i < j < |rows| ==> !StoresFood(rows[j], num, id)
  {
    var classify := FoodRowOf(num);
    var d := Collect(rows, |rows|, classify);
    CollectLastWins(rows, |rows|, classify, id);
    if i :| 0 <= i < |rows| && StoresFood(rows[i], num, id) {
      assert KeptUnder(rows, classify, i, id);
    }
    if id in d.entries {
      var i :| i < |rows| && KeptUnder(rows, classify, i, id)
        && classify(rows[i]).value.1 == d.entries[id]
        && forall j :: i < j < |rows| ==> !KeptUnder(rows, classify, j, id);
      assert FoodRow(rows[i], num) == Keep((id, d.entries[id]));
      forall j | i < j < |rows|
        ensures !StoresFood(rows[j], num, id)
      {
        assert !KeptUnder(rows, classify, j, id);
      }
    }
  }

  // ----- load_categories: {id: description}

  /** One food_category.csv row: `categories[int(row['id'])] = row['description']`.
      Python evaluates the right-hand side first, so a missing description
      is reported before a bad id. */
  function CategoryRow(row: Row, num: Numerics): (r: Outcome<(int, string), LoadError>)
    ensures !r.Skip?
    ensures "description" !in row ==> r == Fatal(MissingColumn("description"))
    ensures r.Keep? <==> "description" in row && IntCell(row, "id", num).Ok?
    ensures r.Keep? ==> r.value == (num.parseInt(row["id"]).value, row["description"])
  {
    if "description" !in row then Fatal(MissingColumn("description"))
    else match IntCell(row, "id", num)
      case Err(e) => Fatal(e)
      case Ok(id) => Keep((id, row["description"]))
  }

  function CategoryRowOf(num: Numerics): Row -> Outcome<(int, string), LoadError> {
    row => CategoryRow(row, num)
  }

  // ----- load_food_categories: {fdc_id: food_category_id}

  /** One food.csv row in load_food_categories: a row with an empty or
      missing food_category_id is passed over, any other stores
      `int(food_category_id)`; a bad fdc_id aborts even then. */
  function FoodCategoryRow(row: Row, num: Numerics): (r: Outcome<(int, int), LoadError>)
    ensures IntCell(row, "fdc_id", num).Err? ==> r.Fatal?
    ensures r.Skip? <==> IntCell(row, "fdc_id", num).Ok? && Get(row, "food_category_id", "") == ""
    ensures r.Keep? <==> (IntCell(row, "fdc_id", num).Ok? && Get(row, "food_category_id", "") != ""
      && num.parseInt(row["food_category_id"]).Some?)
    ensures r.Keep? ==> r.value == (num.parseInt(row["fdc_id"]).value, num.parseInt(row["food_category_id"]).value)
  {
    match IntCell(row, "fdc_id", num)
    case Err(e) => Fatal(e)
    case Ok(id) =>
      if Get(row, "food_category_id", "") == "" then Skip
      else match IntCell(row, "food_category_id", num)
        case Err(e) => Fatal(e)
        case Ok(cat) => Keep((id, cat))
  }

  function FoodCategoryRowOf(num: Numerics): Row -> Outcome<(int, int), LoadError> {
    row => FoodCategoryRow(row, num)
  }

  // ----- load_nutrients: {fdc_id: {field: amount}}

  /** One food_nutrient.csv row in load_nutrients. It aborts the run when
      fdc_id is not an integer, or when the food is known and nutrient_id
      is not an integer. It is passed over (contributing nothing, not a
      zero) when the food is unknown, the nutrient is not a key of
      `fields` (NUTRIENT_MAP, passed in), or the amount is empty or not a
      number. Otherwise it sets the mapped field to the amount rounded to
      4 places. */
  function NutrientRow(row: Row, foodIds: set<int>, fields: map<int, string>, num: Numerics): (r: Outcome<(int, string, real), LoadError>)
    ensures r.Fatal? <==> (IntCell(row, "fdc_id", num).Err?
      || (IntCell(row, "fdc_id", num).value in foodIds && IntCell(row, "nutrient_id", num).Err?))
    ensures r.Keep? <==>
      && IntCell(row, "fdc_id", num).Ok? && IntCell(row, "fdc_id", num).value in foodIds
      && IntCell(row, "nutrient_id", num).Ok? && IntCell(row, "nutrient_id", num).value in fields
      && Get(row, "amount", "") != "" && num.parseFloat(row["amount"]).Some?
    ensures r.Keep? ==> r.value.0 in foodIds && r.value.1 in fields.Values
    ensures r.Keep? ==> r.value == (num.parseInt(row["fdc_id"]).value,
      fields[num.parseInt(row["nutrient_id"]).value], num.round(num.parseFloat(row["amount"]).value, 4))
  {
    match IntCell(row, "fdc_id", num)
    case Err(e) => Fatal(e)
    case Ok(id) =>
      if id !in foodIds then Skip
      else match IntCell(row, "nutrient_id", num)
        case Err(e) => Fatal(e)
        case Ok(nid) =>
          if nid !in fields then Skip
          else
            var text := Get(row, "amount", "");
            if text == "" then Skip
            else match num.parseFloat(text)
              case None => Skip
              case Some(amount) => Keep((id, fields[nid], num.round(amount, 4)))
  }

  function NutrientRowOf(foodIds: set<int>, fields: map<int, string>, num: Numerics): Row -> Outcome<(int, string, real), LoadError> {
    row => NutrientRow(row, foodIds, fields, num)
  }

  /** Every food of the loaded nutrient dict is a known food, and every
      food has at least one field, drawn from the names in `fields`. */
  lemma NutrientsShape(rows: seq<Row>, foodIds: set<int>, fields: map<int, string>, num: Numerics)
    ensures forall id :: id in Nest(rows, |rows|, NutrientRowOf(foodIds, fields, num)) ==>
      var stored := Nest(rows, |rows|, NutrientRowOf(foodIds, fields, num))[id];
      id in foodIds && stored != map[] && stored.Keys <= fields.Values
  {
    var classify := NutrientRowOf(foodIds, fields, num);
    var d := Nest(rows, |rows|, classify);
    NestShape(rows, |rows|, classify);
    forall id | id in d
      ensures id in foodIds && d[id].Keys <= fields.Values
    {
      var i :| i < |rows| && NestedUnder(rows, classify, i, id);
      assert NutrientRow(rows[i], foodIds, fields, num).Keep?;
      forall f | f in d[id]
        ensures f in fields.Values
      {
        NestLastWins(rows, |rows|, classify, id, f);
        var j :| j < |rows| && SetsField(rows, classify, j, id, f);
        assert NutrientRow(rows[j], foodIds, fields, num).Keep?;
      }
    }
  }

  /** Row `row` is accepted and sets `field` of food `id`. */
  predicate SetsNutrient(row: Row, foodIds: set<int>, fields: map<int, string>, num: Numerics, id: int, field: string) {
    var r := NutrientRow(row, foodIds, fields, num);
    r.Keep? && r.value.0 == id && r.value.1 == field
  }

  /** A field of a food holds a value exactly when some accepted row set
      it; rows that were passed over never show up. */
  lemma NutrientsSetByRows(rows: seq<Row>, foodIds: set<int>, fields: map<int, string>, num: Numerics, id: int, field: string)
    ensures var d := Nest(rows, |rows|, NutrientRowOf(foodIds, fields, num));
      (id in d && field in d[id]) <==>
        exists i :: 0 <= i < |rows| && SetsNutrient(rows[i], foodIds, fields, num, id, field)
  {
    var classify := NutrientRowOf(foodIds, fields, num);
    NestLastWins(rows, |rows|, classify, id, field);
    if i :| 0 <= i < |rows| && SetsNutrient(rows[i], foodIds, fields, num, id, field) {
      assert SetsField(rows, classify, i, id, field);
    }
  }

  /** A field that holds a value holds the rounded amount of the last
      accepted row that set it. */
  lemma NutrientsLastRowWins(rows: seq<Row>, foodIds: set<int>, fields: map<int, string>, num: Numerics, id: int, field: string)
    ensures var d := Nest(rows, |rows|, NutrientRowOf(foodIds, fields, num));
      id in d && field in d[id] ==>
        exists i :: 0 <= i < |rows| && NutrientRow(rows[i], foodIds, fields, num) == Keep((id, field, d[id][field]))
          && forall j :: i < j < |rows| ==> !SetsNutrient(rows[j], foodIds, fields, num, id, field)
  {
    var classify := NutrientRowOf(foodIds, fields, num);
    var d := Nest(rows, |rows|, classify);
    NestLastWins(rows, |rows|, classify, id, field);
    if id in d && field in d[id] {
      var i :| i < |rows| && SetsField(rows, classify, i, id, field)
        && classify(rows[i]).value.2 == d[id][field]
        && forall j :: i < j < |rows| ==> !SetsField(rows, classify, j, id, field);
      assert NutrientRow(rows[i], foodIds, fields, num) == Keep((id, field, d[id][field]));
      forall j | i < j < |rows|
        ensures !SetsNutrient(rows[j], foodIds, fields, num, id, field)
      {
        assert !SetsField(rows, classify, j, id, field);
      }
    }
  }

  // ----- load_portions: {fdc_id: [{desc, grams}]}

  /** One entry of a food's portion list. */
  datatype Portion = Portion(desc: string, grams: real)

  /** `row.get('modifier', '') or row.get('portion_description', '')` */
  function PortionDescription(row: Row): string {
    var modifier := Get(row, "modifier", "");
    if modifier != "" then modifier else Get(row, "portion_description", "")
  }

  /** The quantity of a portion: `float(row.get('amount', '1'))`, or 1 when
      that text is not a number. */
  function PortionQuantity(row: Row, num: Numerics): (q: real)
    ensures num.parseFloat(Get(row, "amount", "1")).None? ==> q == 1.0
    ensures num.parseFloat(Get(row, "amount", "1")).Some? ==> q == num.parseFloat(Get(row, "amount", "1")).value
  {
    num.parseFloat(Get(row, "amount", "1")).GetOr(1.0)
  }

  /** The portion text before stripping: the description, with the
      quantity in front of it exactly when the quantity is not 1. */
  function PortionLabel(desc: string, quantity: real, num: Numerics): (r: string)
    ensures |desc| <= |r| && r[|r| - |desc|..] == desc
    ensures r == desc <==> quantity == 1.0
    ensures r != desc ==> r == num.formatFloat(quantity) + " " + desc
  {
    if quantity != 1.0 then num.formatFloat(quantity) + " " + desc else desc
  }

  /** One food_portion.csv row in load_portions. It aborts the run only
      when fdc_id is not an integer. It yields a portion exactly when the
      food is known, a description exists and gram_weight is a non-empty
      number; the portion's text is the stripped label and its weight the
      grams rounded to one place. */
  function PortionRow(row: Row, foodIds: set<int>, num: Numerics): (r: Outcome<(int, Portion), LoadError>)
    ensures r.Fatal? <==> IntCell(row, "fdc_id", num).Err?
    ensures r.Keep? <==>
      && IntCell(row, "fdc_id", num).Ok? && IntCell(row, "fdc_id", num).value in foodIds
      && PortionDescription(row) != "" && Get(row, "gram_weight", "") != ""
      && num.parseFloat(row["gram_weight"]).Some?
    ensures r.Keep? ==> r.value.0 in foodIds
    ensures r.Keep? ==> r.value == (num.parseInt(row["fdc_id"]).value,
      Portion(Strip(PortionLabel(PortionDescription(row), PortionQuantity(row, num), num)),
        num.round(num.parseFloat(row["gram_weight"]).value, 1)))
  {
    match IntCell(row, "fdc_id", num)
    case Err(e) => Fatal(e)
    case Ok(id) =>
      if id !in foodIds then Skip
      else
        var desc := PortionDescription(row);
        var gramWeight := Get(row, "gram_weight", "");
        if gramWeight == "" || desc == "" then Skip
        else match num.parseFloat(gramWeight)
          case None => Skip
          case Some(grams) =>
            Keep((id, Portion(Strip(PortionLabel(desc, PortionQuantity(row, num), num)), num.round(grams, 1))))
  }

  /** A row without an amount column has quantity `float('1')`: when that
      reads as 1, the description is not prefixed. */
  lemma MissingAmountIsOne(row: Row, num: Numerics)
    requires "amount" !in row && num.parseFloat("1") == Some(1.0)
    ensures PortionLabel(PortionDescription(row), PortionQuantity(row, num), num) == PortionDescription(row)
  {
  }

  function PortionRowOf(foodIds: set<int>, num: Numerics): Row -> Outcome<(int, Portion), LoadError> {
    row => PortionRow(row, foodIds, num)
  }

  /** load_portions groups the kept portions by food (`GroupRows` with
      `PortionRowOf`). A food has a portion list exactly when some row
      yielded a portion for it, and only known foods have one; the list
      holds those portions in row order and is never empty. */
  lemma PortionsOfKnownFoods(rows: seq<Row>, foodIds: set<int>, num: Numerics, id: int)
    ensures var p := Group(rows, |rows|, PortionRowOf(foodIds, num));
      id in p ==>
        id in foodIds && p[id] != [] && p[id] == KeptValues(rows, |rows|, PortionRowOf(foodIds, num), id)
    ensures var p := Group(rows, |rows|, PortionRowOf(foodIds, num));
      (id in p) <==>
        exists i :: 0 <= i < |rows| && PortionRow(rows[i], foodIds, num).Keep? && PortionRow(rows[i], foodIds, num).value.0 == id
  {
    var classify := PortionRowOf(foodIds, num);
    var p := Group(rows, |rows|, classify);
    GroupInRowOrder(rows, |rows|, classify, id);
    if id in p {
      var x := p[id][0];
      KeptValuesFrom(rows, |rows|, classify, id, x);
      var i :| i < |rows| && KeptUnder(rows, classify, i, id) && classify(rows[i]).value.1 == x;
      assert PortionRow(rows[i], foodIds, num).value.0 == id;
    }
    if i :| 0 <= i < |rows| && PortionRow(rows[i], foodIds, num).Keep? && PortionRow(rows[i], foodIds, num).value.0 == id {
      KeptValuesFrom(rows, |rows|, classify, id, PortionRow(rows[i], foodIds, num).value.1);
      assert KeptUnder(rows, classify, i, id);
    }
  }
}
