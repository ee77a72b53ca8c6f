/** The Branded Foods converter: food.csv gives each branded food's
    description, branded_food.csv its barcode and serving data,
    food_nutrient.csv its eight macro nutrients; the join is written to
    the branded_foods table keyed by barcode with INSERT OR IGNORE.
    Food ids stay the text of the fdc_id column here: they are never
    converted to integers. */
module Branded {
  import opened Common
  import opened Strings
  import opened Store
  import opened Folds

  /** USDA nutrient id to the column of branded_foods (NUTRIENT_IDS). */
  const NutrientIds: map<int, string> := map[
    1008 := "calories",
    1003 := "protein_g",
    1004 := "fat_g",
    1005 := "carbs_g",
    1079 := "fiber_g",
    2000 := "sugar_g",
    1093 := "sodium_mg",
    1258 := "saturated_fat_g"
  ]

  /** The nutrient columns of branded_foods, in the order of the INSERT. */
  const NutrientColumns: seq<string> :=
    ["calories", "protein_g", "fat_g", "carbs_g", "fiber_g", "sugar_g", "sodium_mg", "saturated_fat_g"]

  /** Every mapped nutrient has its column, and every column is fed by
      one mapped nutrient. */
  lemma ColumnsMatchNutrientIds()
    ensures NutrientIds.Values == set c | c in NutrientColumns
    ensures |NutrientColumns| == |NutrientIds|
  {
    assert NutrientIds.Keys == {1008, 1003, 1004, 1005, 1079, 2000, 1093, 1258};
    assert NutrientIds[1008] == NutrientColumns[0];
    assert NutrientIds[1003] == NutrientColumns[1];
  }

  /** The one exception that aborts a branded run: `row["fdc_id"]` on a row
      without that column. */
  datatype BrandedError = MissingFdcId

  // ----- step 1: fdc_id -> description, branded foods only

  /** One food.csv row: a row whose data_type is not "branded_food" (or
      absent) is passed over; any other stores its description, "" when
      the column is absent. */
  function DescriptionRow(row: Row): (r: Outcome<(string, string), BrandedError>)
    ensures r.Skip? <==> !("data_type" in row && row["data_type"] == "branded_food")
    ensures r.Fatal? <==> "data_type" in row && row["data_type"] == "branded_food" && "fdc_id" !in row
    ensures r.Keep? ==> r.value == (row["fdc_id"], Get(row, "description", ""))
  {
    if "data_type" in row && row["data_type"] == "branded_food" then
      if "fdc_id" in row then Keep((row["fdc_id"], Get(row, "description", ""))) else Fatal(MissingFdcId)
    else Skip
  }

  function DescriptionRowOf(): Row -> Outcome<(string, string), BrandedError> {
    row => DescriptionRow(row)
  }

  /** The description map holds an fdc_id exactly when some branded row
      carries it, and then the description of the last such row. */
  lemma DescriptionsOfBrandedRows(rows: seq<Row>, id: string)
    ensures var d := Collect(rows, |rows|, DescriptionRowOf());
      (id in d.entries) <==>
        exists i :: 0 <= i < |rows| && DescriptionRow(rows[i]).Keep? && rows[i]["fdc_id"] == id
    ensures var d := Collect(rows, |rows|, DescriptionRowOf());
      id in d.entries ==>
        exists i :: 0 <= i < |rows| && DescriptionRow(rows[i]).Keep? && rows[i]["fdc_id"] == id
          && Get(rows[i], "description", "") == d.entries[id]
          && forall j :: i < j < |rows| ==> !(DescriptionRow(rows[j]).Keep? && rows[j]["fdc_id"] == id)
  {
    var classify := DescriptionRowOf();
    var d := Collect(rows, |rows|, classify);
    CollectLastWins(rows, |rows|, classify, id);
    if i :| 0 <= i < |rows| && DescriptionRow(rows[i]).Keep? && rows[i]["fdc_id"] == id {
      assert KeptUnder(rows, classify, i, id);
    }
    if id in d.entries {
      var i :| i < |rows| && KeptUnder(rows, classify, i, id)
        && classify(rows[i]).value.1 == d.entries[id]
        && forall j :: i < j < |rows| ==> !KeptUnder(rows, classify, j, id);
      forall j | i < j < |rows|
        ensures !(DescriptionRow(rows[j]).Keep? && rows[j]["fdc_id"] == id)
      {
        assert !KeptUnder(rows, classify, j, id);
      }
    }
  }

  // ----- step 2: fdc_id -> barcode and serving info

  /** The serving data of one product. `servingSize` is None when the
      column is empty or not a number. */
  datatype Info = Info(barcode: string, brand: string, servingSize: Option<real>, servingUnit: string, household: string)

  /** `float(serving_size) if serving_size else None`, None on ValueError. */
  function ServingSize(row: Row, num: Numerics): (r: Option<real>)
    ensures Get(row, "serving_size", "") == "" ==> r == None
    ensures Get(row, "serving_size", "") != "" ==> r == num.parseFloat(row["serving_size"])
  {
    var text := Get(row, "serving_size", "");
    if text == "" then None else num.parseFloat(text)
  }

  /** The stripped brand_owner, or the stripped brand_name when that is empty. */
  function Brand(row: Row): string {
    var owner := Strip(Get(row, "brand_owner", ""));
    if owner != "" then owner else Strip(Get(row, "brand_name", ""))
  }

  /** One branded_food.csv row. A row whose stripped gtin_upc is empty is
      passed over before fdc_id is read, so it never raises; any other row
      raises without fdc_id and otherwise stores its info. */
  function InfoRow(row: Row, num: Numerics): (r: Outcome<(string, Info), BrandedError>)
    ensures r.Skip? <==> Strip(Get(row, "gtin_upc", "")) == ""
    ensures r.Fatal? <==> Strip(Get(row, "gtin_upc", "")) != "" && "fdc_id" !in row
    ensures r.Keep? ==> r.value.0 == row["fdc_id"]
    ensures r.Keep? ==> r.value.1 == Info(Strip(row["gtin_upc"]), Brand(row), ServingSize(row, num),
      Strip(Get(row, "serving_size_unit", "")), Strip(Get(row, "household_serving_fulltext", "")))
  {
    var barcode := Strip(Get(row, "gtin_upc", ""));
    if barcode == "" then Skip
    else if "fdc_id" !in row then Fatal(MissingFdcId)
    else
      Keep((row["fdc_id"], Info(barcode, Brand(row), ServingSize(row, num),
        Strip(Get(row, "serving_size_unit", "")), Strip(Get(row, "household_serving_fulltext", "")))))
  }

  function InfoRowOf(num: Numerics): Row -> Outcome<(string, Info), BrandedError> {
    row => InfoRow(row, num)
  }

  /** Every stored barcode is non-empty and already stripped. */
  lemma StoredBarcodesStripped(rows: seq<Row>, num: Numerics, id: string)
    ensures var info := Collect(rows, |rows|, InfoRowOf(num));
      id in info.entries ==> info.entries[id].barcode != "" && Strip(info.entries[id].barcode) == info.entries[id].barcode
  {
    var classify := InfoRowOf(num);
    CollectLastWins(rows, |rows|, classify, id);
    var info := Collect(rows, |rows|, classify);
    if id in info.entries {
      var i :| i < |rows| && KeptUnder(rows, classify, i, id) && classify(rows[i]).value.1 == info.entries[id];
      StripIdempotent(Get(rows[i], "gtin_upc", ""));
    }
  }

  /** Every row is counted as skipped or stored, and the dict has no more
      products than stored rows. */
  lemma BarcodeCounts(rows: seq<Row>, num: Numerics)
    requires NoFatal(rows, InfoRowOf(num))
    ensures Skipped(rows, |rows|, InfoRowOf(num)) + Kept(rows, |rows|, InfoRowOf(num)) == |rows|
    ensures |Collect(rows, |rows|, InfoRowOf(num)).keys| <= |rows| - Skipped(rows, |rows|, InfoRowOf(num))
  {
    CollectCounts(rows, |rows|, InfoRowOf(num));
  }

  // ----- step 3: fdc_id -> {column: amount}, for products with a barcode

  /** `float(row.get("amount", 0) or 0)`, 0.0 on ValueError: an absent,
      empty or unparseable amount is 0. */
  function Amount(row: Row, num: Numerics): (r: real)
    ensures Get(row, "amount", "") == "" ==> r == 0.0
    ensures Get(row, "amount", "") != "" && num.parseFloat(row["amount"]).None? ==> r == 0.0
    ensures Get(row, "amount", "") != "" && num.parseFloat(row["amount"]).Some? ==> r == num.parseFloat(row["amount"]).value
  {
    var text := Get(row, "amount", "");
    if text == "" then 0.0 else num.parseFloat(text).GetOr(0.0)
  }

  /** One food_nutrient.csv row. It raises only without fdc_id. A row for
      a product outside `targets` is passed over before nutrient_id is
      looked at; so is a missing, non-integer or unmapped nutrient_id. Any
      other row sets its column, with Amount as the value. */
  function NutrientRow(row: Row, targets: set<string>, num: Numerics): (r: Outcome<(string, string, real), BrandedError>)
    ensures r.Fatal? <==> "fdc_id" !in row
    ensures "fdc_id" in row && row["fdc_id"] !in targets ==> r.Skip?
    ensures r.Keep? <==>
      && "fdc_id" in row && row["fdc_id"] in targets
      && "nutrient_id" in row && num.parseInt(row["nutrient_id"]).Some?
      && num.parseInt(row["nutrient_id"]).value in NutrientIds
    ensures r.Keep? ==> r.value == (row["fdc_id"], NutrientIds[num.parseInt(row["nutrient_id"]).value], Amount(row, num))
  {
    if "fdc_id" !in row then Fatal(MissingFdcId)
    else if row["fdc_id"] !in targets then Skip
    else if "nutrient_id" !in row then Skip
    else match num.parseInt(row["nutrient_id"])
      case None => Skip
      case Some(nid) =>
        if nid !in NutrientIds then Skip
        else Keep((row["fdc_id"], NutrientIds[nid], Amount(row, num)))
  }

  function NutrientRowOf(targets: set<string>, num: Numerics): Row -> Outcome<(string, string, real), BrandedError> {
    row => NutrientRow(row, targets, num)
  }

  /** The nutrient dict only has products of the target set, each with at
      least one column, every column one of NutrientColumns. */
  lemma NutrientsOfTargets(rows: seq<Row>, targets: set<string>, num: Numerics, id: string)
    ensures var d := Nest(rows, |rows|, NutrientRowOf(targets, num));
      id in d ==> id in targets && d[id] != map[] && d[id].Keys <= NutrientIds.Values
  {
    var classify := NutrientRowOf(targets, num);
    var d := Nest(rows, |rows|, classify);
    NestShape(rows, |rows|, classify);
    if id in d {
      var i :| i < |rows| && NestedUnder(rows, classify, i, id);
      assert NutrientRow(rows[i], targets, num).Keep?;
      forall f | f in d[id]
        ensures f in NutrientIds.Values
      {
        NestLastWins(rows, |rows|, classify, id, f);
        var j :| j < |rows| && SetsField(rows, classify, j, id, f);
        KeptColumnIsKnown(rows[j], targets, num);
      }
    }
  }

  /** A product's column holds the amount of the last kept row that set it. */
  lemma NutrientColumnLastWins(rows: seq<Row>, targets: set<string>, num: Numerics, id: string, column: string)
    ensures var d := Nest(rows, |rows|, NutrientRowOf(targets, num));
      id in d && column in d[id] ==>
        exists i :: 0 <= i < |rows| && NutrientRow(rows[i], targets, num) == Keep((id, column, d[id][column]))
          && forall j :: i < j < |rows| ==> !SetsField(rows, NutrientRowOf(targets, num), j, id, column)
  {
    var classify := NutrientRowOf(targets, num);
    var d := Nest(rows, |rows|, classify);
    NestLastWins(rows, |rows|, classify, id, column);
    if id in d && column in d[id] {
      var i :| i < |rows| && SetsField(rows, classify, i, id, column)
        && classify(rows[i]).value.2 == d[id][column]
        && forall j :: i < j < |rows| ==> !SetsField(rows, classify, j, id, column);
      assert NutrientRow(rows[i], targets, num) == Keep((id, column, d[id][column]));
    }
  }

  /** A kept nutrient row names one of the product columns. */
  lemma KeptColumnIsKnown(row: Row, targets: set<string>, num: Numerics)
    ensures NutrientRow(row, targets, num).Keep? ==> NutrientRow(row, targets, num).value.1 in NutrientIds.Values
  {
    if NutrientRow(row, targets, num).Keep? {
      var nid := num.parseInt(row["nutrient_id"]).value;
      assert NutrientIds[nid] in NutrientIds.Values;
    }
  }

  // ----- step 4: the write loop

  /** `x or None` for a text column. */
  function TextOrNull(s: string): (v: SqlValue)
    ensures v == Null <==> s == ""
  {
    if s == "" then Null else Text(s)
  }

  /** The 14 values of one INSERT, in column order. A missing nutrient is
      `nutr.get(column, 0)`, which SQLite stores in a REAL column as 0.0. */
  function ProductRow(info: Info, description: string, nutr: map<string, real>): (row: SqlRow)
    ensures |row| == 6 + |NutrientColumns| == 14
    ensures row[0] == Text(info.barcode) && row[1] == Text(description)
    ensures row[2] == TextOrNull(info.brand) && row[4] == TextOrNull(info.servingUnit) && row[5] == TextOrNull(info.household)
    ensures row[3] == if info.servingSize.Some? then Real(info.servingSize.value) else Null
    ensures forall c :: 0 <= c < |NutrientColumns| ==> row[6 + c] == Real(Get(nutr, NutrientColumns[c], 0.0))
  {
    [Text(info.barcode), Text(description), TextOrNull(info.brand),
     if info.servingSize.Some? then Real(info.servingSize.value) else Null,
     TextOrNull(info.servingUnit), TextOrNull(info.household)]
    + seq(|NutrientColumns|, c requires 0 <= c < |NutrientColumns| => Real(Get(nutr, NutrientColumns[c], 0.0)))
  }

  /** The table and the three counters of the write loop. */
  datatype WriteState = WriteState(table: map<string, SqlRow>, inserted: nat, skippedNoDesc: nat, skippedNoNutrients: nat)

  /** The product with fdc_id `id` has a description. */
  predicate HasDescription(id: string, descriptions: map<string, string>) {
    Get(descriptions, id, "") != ""
  }

  /** The product with fdc_id `id` has at least one nutrient. */
  predicate HasNutrients(id: string, nutrients: map<string, map<string, real>>) {
    id in nutrients && nutrients[id] != map[]
  }

  /** The i-th product of branded_info reaches the INSERT, under barcode b. */
  ghost predicate InsertsBarcode(info: Dict<string, Info>, i: int, descriptions: map<string, string>,
                                 nutrients: map<string, map<string, real>>, b: string)
  {
    0 <= i < |info.keys| && info.keys[i] in info.entries
      && HasDescription(info.keys[i], descriptions) && HasNutrients(info.keys[i], nutrients)
      && info.entries[info.keys[i]].barcode == b
  }

  /** One turn of the write loop for product `id`. */
  function WriteStep(w: WriteState, id: string, item: Info, descriptions: map<string, string>,
                     nutrients: map<string, map<string, real>>): WriteState
  {
    if !HasDescription(id, descriptions) then w.(skippedNoDesc := w.skippedNoDesc + 1)
    else if !HasNutrients(id, nutrients) then w.(skippedNoNutrients := w.skippedNoNutrients + 1)
    else
      w.(table := InsertOrIgnore(w.table, item.barcode, ProductRow(item, descriptions[id], nutrients[id])),
         inserted := w.inserted + 1)
  }

  /** The state after the first n products of branded_info, in dict order. */
  function Written(info: Dict<string, Info>, n: nat, descriptions: map<string, string>,
                   nutrients: map<string, map<string, real>>): WriteState
    requires n <= |info.keys| && info.Valid()
  {
    if n == 0 then WriteState(map[], 0, 0, 0)
    else
      var id := info.keys[n - 1];
      WriteStep(Written(info, n - 1, descriptions, nutrients), id, info.entries[id], descriptions, nutrients)
  }

  /** The write loop: `for fdc_id, info in branded_info.items()`. */
  method WriteProducts(info: Dict<string, Info>, descriptions: map<string, string>,
                       nutrients: map<string, map<string, real>>)
    returns (table: map<string, SqlRow>, inserted: nat, skippedNoDesc: nat, skippedNoNutrients: nat)
    requires info.Valid()
    ensures WriteState(table, inserted, skippedNoDesc, skippedNoNutrients) == Written(info, |info.keys|, descriptions, nutrients)
  {
    table, inserted, skippedNoDesc, skippedNoNutrients := map[], 0, 0, 0;
    var i := 0;
    while i < |info.keys|
      invariant 0 <= i <= |info.keys|
      invariant WriteState(table, inserted, skippedNoDesc, skippedNoNutrients) == Written(info, i, descriptions, nutrients)
    {
      var id := info.keys[i];
      var item := info.entries[id];
      var description := Get(descriptions, id, "");
      if description == "" {
        skippedNoDesc := skippedNoDesc + 1;
      } else {
        var nutr := if id in nutrients then nutrients[id] else map[];
        if nutr == map[] {
          skippedNoNutrients := skippedNoNutrients + 1;
        } else {
          table := InsertOrIgnore(table, item.barcode, ProductRow(item, description, nutr));
          inserted := inserted + 1;
        }
      }
      i := i + 1;
    }
  }

  /** Each product falls in exactly one of inserted, skipped_no_desc and
      skipped_no_nutrients, and the table never has more rows than
      INSERTs were issued. */
  lemma {:induction false} WriteCounts(info: Dict<string, Info>, n: nat, descriptions: map<string, string>,
                                       nutrients: map<string, map<string, real>>)
    requires n <= |info.keys| && info.Valid()
    ensures var w := Written(info, n, descriptions, nutrients);
      w.inserted + w.skippedNoDesc + w.skippedNoNutrients == n && |w.table| <= w.inserted
  {
    if n > 0 {
      WriteCounts(info, n - 1, descriptions, nutrients);
      var w := Written(info, n - 1, descriptions, nutrients);
      var id := info.keys[n - 1];
      if HasDescription(id, descriptions) && HasNutrients(id, nutrients) {
        var b := info.entries[id].barcode;
        if b !in w.table {
          assert |w.table[b := ProductRow(info.entries[id], descriptions[id], nutrients[id])]| == |w.table| + 1;
        }
      }
    }
  }

  /** The i-th product of branded_info has no description. */
  predicate SkipsForDescription(info: Dict<string, Info>, i: int, descriptions: map<string, string>) {
    0 <= i < |info.keys| && !HasDescription(info.keys[i], descriptions)
  }

  /** The i-th product has a description but no nutrients. */
  predicate SkipsForNutrients(info: Dict<string, Info>, i: int, descriptions: map<string, string>,
                              nutrients: map<string, map<string, real>>) {
    0 <= i < |info.keys| && HasDescription(info.keys[i], descriptions) && !HasNutrients(info.keys[i], nutrients)
  }

  /** The i-th product has a description and nutrients. */
  predicate ReachesInsert(info: Dict<string, Info>, i: int, descriptions: map<string, string>,
                          nutrients: map<string, map<string, real>>) {
    0 <= i < |info.keys| && HasDescription(info.keys[i], descriptions) && HasNutrients(info.keys[i], nutrients)
  }

  /** The three predicates above as functions of a position of
      branded_info, for counting with Positions. */
  function NoDescriptionAt(info: Dict<string, Info>, descriptions: map<string, string>): int -> bool {
    i => SkipsForDescription(info, i, descriptions)
  }

  function NoNutrientsAt(info: Dict<string, Info>, descriptions: map<string, string>,
                         nutrients: map<string, map<string, real>>): int -> bool {
    i => SkipsForNutrients(info, i, descriptions, nutrients)
  }

  function InsertAt(info: Dict<string, Info>, descriptions: map<string, string>,
                    nutrients: map<string, map<string, real>>): int -> bool {
    i => ReachesInsert(info, i, descriptions, nutrients)
  }

  /** Which counter one turn of the write loop advances. */
  lemma WriteStepCounters(w: WriteState, id: string, item: Info, descriptions: map<string, string>,
                          nutrients: map<string, map<string, real>>)
    ensures var w' := WriteStep(w, id, item, descriptions, nutrients);
      && w'.skippedNoDesc == w.skippedNoDesc + (if HasDescription(id, descriptions) then 0 else 1)
      && w'.skippedNoNutrients == w.skippedNoNutrients
           + (if HasDescription(id, descriptions) && !HasNutrients(id, nutrients) then 1 else 0)
      && w'.inserted == w.inserted + (if HasDescription(id, descriptions) && HasNutrients(id, nutrients) then 1 else 0)
  {
  }

  /** What one turn of the write loop does to the table. */
  lemma WriteStepTable(w: WriteState, id: string, item: Info, descriptions: map<string, string>,
                       nutrients: map<string, map<string, real>>)
    ensures WriteStep(w, id, item, descriptions, nutrients).table ==
      if HasDescription(id, descriptions) && HasNutrients(id, nutrients)
      then InsertOrIgnore(w.table, item.barcode, ProductRow(item, descriptions[id], nutrients[id]))
      else w.table
  {
  }

  /** skipped_no_desc counts the products without a description. */
  lemma {:induction false} SkippedNoDescCounts(info: Dict<string, Info>, n: nat, descriptions: map<string, string>,
                                               nutrients: map<string, map<string, real>>)
    requires n <= |info.keys| && info.Valid()
    ensures Written(info, n, descriptions, nutrients).skippedNoDesc == |Positions(n, NoDescriptionAt(info, descriptions))|
  {
    if n > 0 {
      SkippedNoDescCounts(info, n - 1, descriptions, nutrients);
      var id := info.keys[n - 1];
      WriteStepCounters(Written(info, n - 1, descriptions, nutrients), id, info.entries[id], descriptions, nutrients);
      PositionsStep(n - 1, NoDescriptionAt(info, descriptions));
    }
  }

  /** skipped_no_nutrients counts the products that have a description
      but no nutrients: the description is checked first. */
  lemma {:induction false} SkippedNoNutrientsCounts(info: Dict<string, Info>, n: nat, descriptions: map<string, string>,
                                                    nutrients: map<string, map<string, real>>)
    requires n <= |info.keys| && info.Valid()
    ensures Written(info, n, descriptions, nutrients).skippedNoNutrients == |Positions(n, NoNutrientsAt(info, descriptions, nutrients))|
  {
    if n > 0 {
      SkippedNoNutrientsCounts(info, n - 1, descriptions, nutrients);
      var id := info.keys[n - 1];
      WriteStepCounters(Written(info, n - 1, descriptions, nutrients), id, info.entries[id], descriptions, nutrients);
      PositionsStep(n - 1, NoNutrientsAt(info, descriptions, nutrients));
    }
  }

  /** inserted counts the products that have both a description and
      nutrients. */
  lemma {:induction false} InsertedCounts(info: Dict<string, Info>, n: nat, descriptions: map<string, string>,
                                          nutrients: map<string, map<string, real>>)
    requires n <= |info.keys| && info.Valid()
    ensures Written(info, n, descriptions, nutrients).inserted == |Positions(n, InsertAt(info, descriptions, nutrients))|
  {
    if n > 0 {
      InsertedCounts(info, n - 1, descriptions, nutrients);
      var id := info.keys[n - 1];
      WriteStepCounters(Written(info, n - 1, descriptions, nutrients), id, info.entries[id], descriptions, nutrients);
      PositionsStep(n - 1, InsertAt(info, descriptions, nutrients));
    }
  }

  /** The table t holds, for barcode b, the row of the first of the first n
      products that reaches the INSERT with that barcode, and nothing if
      there is none. */
  ghost predicate FirstRowOf(info: Dict<string, Info>, n: nat, descriptions: map<string, string>,
                             nutrients: map<string, map<string, real>>, b: string, t: map<string, SqlRow>)
    requires n <= |info.keys| && info.Valid()
  {
    && (b in t <==> exists i :: 0 <= i < n && InsertsBarcode(info, i, descriptions, nutrients, b))
    && (b in t ==>
          exists i :: 0 <= i < n && InsertsBarcode(info, i, descriptions, nutrients, b)
            && t[b] == ProductRow(info.entries[info.keys[i]], descriptions[info.keys[i]], nutrients[info.keys[i]])
            && forall j :: 0 <= j < i ==> !InsertsBarcode(info, j, descriptions, nutrients, b))
  }

  /** One more product keeps FirstRowOf: INSERT OR IGNORE only fills a
      barcode that has no row yet. */
  lemma FirstRowStep(info: Dict<string, Info>, n: nat, descriptions: map<string, string>,
                     nutrients: map<string, map<string, real>>, b: string, t: map<string, SqlRow>,
                     t': map<string, SqlRow>)
    requires 0 < n <= |info.keys| && info.Valid()
    requires FirstRowOf(info, n - 1, descriptions, nutrients, b, t)
    requires var id := info.keys[n - 1];
      t' == if HasDescription(id, descriptions) && HasNutrients(id, nutrients)
            then InsertOrIgnore(t, info.entries[id].barcode, ProductRow(info.entries[id], descriptions[id], nutrients[id]))
            else t
    ensures FirstRowOf(info, n, descriptions, nutrients, b, t')
  {
    if b in t {
      assert b in t' && t'[b] == t[b];
      var i :| 0 <= i < n - 1 && InsertsBarcode(info, i, descriptions, nutrients, b)
        && t[b] == ProductRow(info.entries[info.keys[i]], descriptions[info.keys[i]], nutrients[info.keys[i]])
        && forall j :: 0 <= j < i ==> !InsertsBarcode(info, j, descriptions, nutrients, b);
    } else if InsertsBarcode(info, n - 1, descriptions, nutrients, b) {
      assert t'[b] == ProductRow(info.entries[info.keys[n - 1]], descriptions[info.keys[n - 1]], nutrients[info.keys[n - 1]]);
      assert forall j :: 0 <= j < n - 1 ==> !InsertsBarcode(info, j, descriptions, nutrients, b);
    } else {
      assert b !in t';
      assert (exists i :: 0 <= i < n && InsertsBarcode(info, i, descriptions, nutrients, b))
        ==> exists i :: 0 <= i < n - 1 && InsertsBarcode(info, i, descriptions, nutrients, b);
    }
  }

  /** A barcode has a row exactly when some product reaching the INSERT
      carries it, and the row is the one of the FIRST such product in
      branded_info's order: later INSERTs for the barcode are ignored. */
  lemma {:induction false} FirstProductWins(info: Dict<string, Info>, n: nat, descriptions: map<string, string>,
                                            nutrients: map<string, map<string, real>>, b: string)
    requires n <= |info.keys| && info.Valid()
    ensures var t := Written(info, n, descriptions, nutrients).table;
      b in t <==> exists i :: 0 <= i < n && InsertsBarcode(info, i, descriptions, nutrients, b)
    ensures var t := Written(info, n, descriptions, nutrients).table;
      b in t ==>
        exists i :: 0 <= i < n && InsertsBarcode(info, i, descriptions, nutrients, b)
          && t[b] == ProductRow(info.entries[info.keys[i]], descriptions[info.keys[i]], nutrients[info.keys[i]])
          && forall j :: 0 <= j < i ==> !InsertsBarcode(info, j, descriptions, nutrients, b)
  {
    if n > 0 {
      FirstProductWins(info, n - 1, descriptions, nutrients, b);
      var id := info.keys[n - 1];
      var w := Written(info, n - 1, descriptions, nutrients);
      WriteStepTable(w, id, info.entries[id], descriptions, nutrients);
      assert FirstRowOf(info, n - 1, descriptions, nutrients, b, w.table);
      FirstRowStep(info, n, descriptions, nutrients, b, w.table, Written(info, n, descriptions, nutrients).table);
    }
  }

  /** How many INSERTs among the first n products were ignored because
      their barcode already had a row. */
  ghost function Ignored(info: Dict<string, Info>, n: nat, descriptions: map<string, string>,
                   nutrients: map<string, map<string, real>>): nat
    requires n <= |info.keys| && info.Valid()
  {
    if n == 0 then 0
    else
      Ignored(info, n - 1, descriptions, nutrients)
        + if InsertsBarcode(info, n - 1, descriptions, nutrients, info.entries[info.keys[n - 1]].barcode)
            && info.entries[info.keys[n - 1]].barcode in Written(info, n - 1, descriptions, nutrients).table
          then 1 else 0
  }

  /** The duplicate count main reports. */
  function DuplicatesReported(inserted: nat, rowCount: nat): nat {
    if inserted > rowCount then inserted - rowCount else 0
  }

  /** The reported duplicate count is exactly the number of ignored
      INSERTs: every INSERT either adds a row or is ignored. */
  lemma {:induction false} DuplicatesAreIgnoredInserts(info: Dict<string, Info>, n: nat, descriptions: map<string, string>,
                                                       nutrients: map<string, map<string, real>>)
    requires n <= |info.keys| && info.Valid()
    ensures var w := Written(info, n, descriptions, nutrients);
      |w.table| + Ignored(info, n, descriptions, nutrients) == w.inserted
        && DuplicatesReported(w.inserted, |w.table|) == Ignored(info, n, descriptions, nutrients)
  {
    if n > 0 {
      DuplicatesAreIgnoredInserts(info, n - 1, descriptions, nutrients);
    }
  }

  /** Every row written has the key of its barcode column, a non-empty
      description and all eight nutrient columns. */
  lemma {:induction false} RowsWellFormed(info: Dict<string, Info>, n: nat, descriptions: map<string, string>,
                                          nutrients: map<string, map<string, real>>, b: string)
    requires n <= |info.keys| && info.Valid()
    ensures var t := Written(info, n, descriptions, nutrients).table;
      b in t ==> |t[b]| == 14 && t[b][0] == Text(b) && t[b][1].Text? && t[b][1].s != ""
  {
    if n > 0 {
      RowsWellFormed(info, n - 1, descriptions, nutrients, b);
    }
  }

  // ----- main, without the file checks, the SQL text and the printing

  /** What a run leaves behind: the branded_foods table and the counters
      of the summary. */
  datatype Report = Report(table: map<string, SqlRow>, skippedNoBarcode: nat, inserted: nat,
                           skippedNoDesc: nat, skippedNoNutrients: nat, duplicates: nat)

  /** The write loop's final state when no step raises. */
  ghost function FinalState(foodRows: seq<Row>, brandedRows: seq<Row>, nutrientRows: seq<Row>, num: Numerics): WriteState {
    var info := Collect(brandedRows, |brandedRows|, InfoRowOf(num));
    CollectLastWins(brandedRows, |brandedRows|, InfoRowOf(num), "");
    Written(info, |info.keys|,
      Collect(foodRows, |foodRows|, DescriptionRowOf()).entries,
      Nest(nutrientRows, |nutrientRows|, NutrientRowOf(info.entries.Keys, num)))
  }

  /** Steps 1 to 4 of main. The only exception is a missing fdc_id column;
      the first step that meets one aborts the run. */
  method ConvertBranded(foodRows: seq<Row>, brandedRows: seq<Row>, nutrientRows: seq<Row>, num: Numerics)
    returns (r: Result<Report, BrandedError>)
    ensures r.Ok? <==>
      && NoFatal(foodRows, DescriptionRowOf())
      && NoFatal(brandedRows, InfoRowOf(num))
      && NoFatal(nutrientRows, NutrientRowOf(Collect(brandedRows, |brandedRows|, InfoRowOf(num)).entries.Keys, num))
    ensures r.Ok? ==>
      var w := FinalState(foodRows, brandedRows, nutrientRows, num);
      && r.value.table == w.table && r.value.inserted == w.inserted
      && r.value.skippedNoDesc == w.skippedNoDesc && r.value.skippedNoNutrients == w.skippedNoNutrients
      && r.value.skippedNoBarcode == Skipped(brandedRows, |brandedRows|, InfoRowOf(num))
      && r.value.duplicates == DuplicatesReported(w.inserted, |w.table|)
  {
    var descriptions := CollectRows(foodRows, DescriptionRowOf());
    if descriptions.Err? {
      return Err(descriptions.error);
    }
    var loaded := CollectRowsCountingSkips(brandedRows, InfoRowOf(num));
    if loaded.Err? {
      return Err(loaded.error);
    }
    var info := loaded.value.0;
    var nutrients := NestRows(nutrientRows, NutrientRowOf(info.entries.Keys, num));
    if nutrients.Err? {
      return Err(nutrients.error);
    }
    CollectLastWins(brandedRows, |brandedRows|, InfoRowOf(num), "");
    var table, inserted, skippedNoDesc, skippedNoNutrients := WriteProducts(info, descriptions.value.entries, nutrients.value);
    var rowCount := |table|;
    return Ok(Report(table, loaded.value.1, inserted, skippedNoDesc, skippedNoNutrients,
      DuplicatesReported(inserted, rowCount)));
  }
}
