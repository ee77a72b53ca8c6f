# foodlog USDA converters, modelled in Dafny

foodlog ships three offline food databases. Three converters build them from USDA FoodData Central downloads:

- **SR Legacy** (`scripts/process_usda_data.py`) reads four CSV files:
  - `food.csv` (twice);
  - `food_category.csv`;
  - `food_nutrient.csv`;
  - `food_portion.csv`.

  Each becomes a dict keyed by a numeric id. `build_database` joins them into one entry per food that has nutrient data, with an optional category and an optional portion list. The entries are sorted by lower-cased name.
- **Branded** (`convert_branded.py`) proceeds in four steps:
  1. It reads descriptions of `branded_food` rows from `food.csv`.
  2. It reads barcode and serving data from `branded_food.csv`, passing over rows without a barcode.
  3. It reads eight macro-nutrients from `food_nutrient.csv` for the products that have a barcode.
  4. It writes one row per product into `branded_foods`, keyed by barcode, with `INSERT OR IGNORE`. A product without a description or without nutrients is counted and passed over. The duplicate count it reports is `inserted - row_count`.
- **FNDDS** (`convert_fndds.py`) walks the survey foods of a JSON document. A food without a code or without nutrients is passed over. For every other food it writes:
  - a `foods` row: the code, the description, and 32 nutrient columns (0 where absent);
  - a row of the full-text index;
  - the portions with a positive weight and a description.

  It keeps a food counter and a portion counter.

## How the model is organised

| module | contents |
|---|---|
| `Common` | `Option`, `Result` and `Outcome`; CSV rows as `map<string,string>`; a Python dict with its insertion order (`Dict`); the numeric conversions as a `Numerics` value |
| `Strings` | `str.strip`, ASCII `str.lower`, and Python's ordering of strings |
| `Store` | SQLite tables as maps: `INSERT OR IGNORE` and a plain `INSERT` |
| `Folds` | The loops the loaders share |
| `SrLoad`, `SrBuild` | The SR Legacy converter |
| `Branded` | The branded converter |
| `Fndds` | The FNDDS converter |

Each generic loop in `Folds` is a method with a `while` loop, proved against a specification function:

| loop | Python pattern | specified by |
|---|---|---|
| `CollectRows` | `d[k] = v` | `Collect` |
| `NestRows` | `d[k][f] = v` | `Nest` |
| `GroupRows` | `d[k] = []` on first sight, then `d[k].append(v)` | `Group` |

What a loader does with one row is a classifier `Row -> Outcome`:

- `Fatal` is an exception nobody catches, which aborts the run;
- `Skip` is `continue`;
- `Keep` is the assignment.

Lemmas then state what the resulting dicts hold: which keys appear, that the last row wins, and that lists keep row order. The write loops of Branded and FNDDS work the same way: methods proved against fold functions (`Written`, `Converted`), with the tables' invariants proved as lemmas about those functions.

Behaviour of the code worth knowing:

- SR Legacy does not check that a portion's gram weight is positive.
- SR Legacy stores `desc.strip()` as a portion's label. For an all-blank modifier this is empty when the quantity is 1; otherwise it is the text of the quantity alone.
- In SR Legacy's nutrient file, an unparsable `fdc_id` aborts the whole run. An unparsable `nutrient_id` aborts it only on a row of a known food: rows of other foods are passed over before `nutrient_id` is read. Neither is a recoverable field error.
- FNDDS uses a plain `INSERT`, not "insert or ignore". A repeated food code therefore aborts the run with an IntegrityError (`FnddsError.DuplicateFoodCode`); nothing is dropped and counted.

## Model

| member | source | states |
|---|---|---|
| Common.Dict.Put | scripts/process_usda_data.py:112 | `d[k] = v` replaces the value; a new key goes to the end of the iteration order, existing keys keep their places, and keys stay distinct |
| Common.Dict.KeysPrefixStep | convert_branded.py:163 | Walking a dict's keys in order, each key is present and has not been seen before |
| Strings.Strip | convert_branded.py:66 | `strip()` is a contiguous slice of the text with only white space before and after it; it is empty exactly when the text is all white space, and otherwise neither starts nor ends with white space |
| Strings.TrimStart | convert_branded.py:66 | The left strip removes exactly a leading run of white space |
| Strings.TrimEnd | convert_branded.py:66 | The right strip removes exactly a trailing run of white space |
| Strings.StripIdempotent | convert_branded.py:78-83 | Stripping a stripped value changes nothing |
| Strings.Lower | scripts/process_usda_data.py:240 | `lower()` keeps the length and maps each character on its own |
| Strings.LexLeReflexive | scripts/process_usda_data.py:240 | The string order used as sort key is reflexive |
| Strings.LexLeTotal | scripts/process_usda_data.py:240 | Any two sort keys are comparable |
| Strings.LexLeTransitive | scripts/process_usda_data.py:240 | The string order is transitive |
| Store.InsertOrIgnore | convert_branded.py:152-157 | A present key keeps its row, a new key gets the row, and no other row changes |
| Store.Insert | convert_fndds.py:119 | A plain INSERT fails exactly when the key is present; otherwise it adds the row and leaves the others alone |
| Folds.CollectRows | scripts/process_usda_data.py:105-114 | The row loop succeeds iff no row raises; it returns the `Collect` dict, or the error of the first row that raises |
| Folds.CollectLastWins | scripts/process_usda_data.py:110-112 | A key is in the dict iff some kept row carries it; its value is that of the last such row; the dict is well formed |
| Folds.CollectCounts | convert_branded.py:65-84 | Without errors, skipped plus kept rows are all the rows, and the dict has at most one key per kept row |
| Folds.CollectRowsCountingSkips | convert_branded.py:61-84 | The loop with a skip counter returns the `Collect` dict and the number of skipped rows, or the first error |
| Folds.NestRows | scripts/process_usda_data.py:146-172 | The nested loop succeeds iff no row raises, and returns `Nest` or the first error |
| Folds.NestShape | scripts/process_usda_data.py:168-170 | An outer key is present iff some kept row carries it, and its inner dict is never empty |
| Folds.NestLastWins | scripts/process_usda_data.py:168-170 | An inner field is present iff some kept row sets it, and it holds the last such row's value |
| Folds.GroupRows | scripts/process_usda_data.py:179-212 | The grouping loop succeeds iff no row raises, and returns `Group` or the first error |
| Folds.GroupInRowOrder | scripts/process_usda_data.py:207-209 | A key has a list iff it has kept values; the list holds exactly those values in row order |
| Folds.KeptValuesFrom | scripts/process_usda_data.py:207-209 | A value is in a key's list iff some kept row yielded it under that key |
| SrLoad.IntCell | scripts/process_usda_data.py:111 | `int(row[c])` succeeds iff the column exists and parses, and yields the parsed value |
| SrLoad.FoodRow | scripts/process_usda_data.py:110-112 | A food row is never skipped; it is stored iff fdc_id parses and a description exists, under that id with that description |
| SrLoad.FoodsLastRowWins | scripts/process_usda_data.py:103-114 | An fdc_id is in `foods` iff some row stores it, and maps to the description of the last such row |
| SrLoad.CategoryRow | scripts/process_usda_data.py:125 | A missing description is the error even when the id is bad; otherwise the row is stored iff the id parses |
| SrLoad.FoodCategoryRow | scripts/process_usda_data.py:136-140 | A bad fdc_id aborts; an empty or missing category id skips; otherwise it stores the category id, or aborts if it does not parse |
| SrLoad.NutrientRow | scripts/process_usda_data.py:152-171 | Which rows abort (a bad fdc_id, or a bad nutrient_id of a known food), which are kept (known food, mapped nutrient, numeric amount), and the stored field and 4-place rounded amount |
| SrLoad.NutrientsShape | scripts/process_usda_data.py:144-174 | Every food in `nutrients` is a known food with at least one field, each field a NUTRIENT_MAP name |
| SrLoad.NutrientsSetByRows | scripts/process_usda_data.py:153-170 | A food's field is present iff some accepted row sets it |
| SrLoad.NutrientsLastRowWins | scripts/process_usda_data.py:167-170 | A present field holds the rounded amount of the last accepted row that set it |
| SrLoad.PortionQuantity | scripts/process_usda_data.py:198-202 | The quantity is the parsed `amount` (default text "1"), or 1.0 when it does not parse |
| SrLoad.PortionLabel | scripts/process_usda_data.py:204-205 | The label ends with the description, and equals it iff the quantity is 1; otherwise it is the quantity, a space and the description |
| SrLoad.PortionRow | scripts/process_usda_data.py:185-209 | A portion row aborts iff fdc_id is bad; it is kept iff the food is known, a description exists and gram_weight is a number; it then holds the stripped label and grams rounded to 1 place |
| SrLoad.MissingAmountIsOne | scripts/process_usda_data.py:198 | A row without an amount column keeps its description unprefixed |
| SrLoad.PortionsOfKnownFoods | scripts/process_usda_data.py:177-212 | A food has a portion list iff some row yielded a portion for it; only known foods do; the list is non-empty and in row order |
| SrBuild.EntryOf | scripts/process_usda_data.py:223-235 | An entry carries the id, name and nutrients; a category iff the category id is non-zero and known; portions iff the food has some |
| SrBuild.InsertByName | scripts/process_usda_data.py:240 | One insertion step of the sort adds exactly the new entry |
| SrBuild.SortByName | scripts/process_usda_data.py:240 | The sort is a permutation of its input |
| SrBuild.InsertSorted | scripts/process_usda_data.py:240 | Inserting into a sorted list keeps it sorted |
| SrBuild.InsertKeepsOrder | scripts/process_usda_data.py:240 | An inserted entry goes after the entries with an equal key |
| SrBuild.SortIsSorted | scripts/process_usda_data.py:240 | The sorted list is ordered by lower-cased name |
| SrBuild.SortIsStable | scripts/process_usda_data.py:240 | Entries with an equal key keep their relative order |
| SrBuild.BuildDatabase | scripts/process_usda_data.py:215-242 | The loop over `foods.items()` and the sort yield the sorted join |
| SrBuild.DatabaseEntries | scripts/process_usda_data.py:219-237 | The database holds each food that has nutrient data exactly once, as the entry built for it, and nothing else |
| SrBuild.DatabaseOrder | scripts/process_usda_data.py:240 | The database is sorted by lower-cased name, and the foods dict's order is kept among equal names |
| SrBuild.UnsortedIsAccepted | scripts/process_usda_data.py:219-237 | Before sorting, each accepted entry of the foods walked so far appears exactly once |
| SrBuild.AppendedCount | scripts/process_usda_data.py:220-237 | One iteration appends exactly the entry of its food, when that food has nutrient data |
| SrBuild.ConvertSrLegacy | scripts/process_usda_data.py:249-255 | The run succeeds iff none of the five loads raises, and then yields the database; otherwise it fails with the first loader's first error |
| Branded.ColumnsMatchNutrientIds | convert_branded.py:24-33 | The eight product columns are exactly the names in NUTRIENT_IDS |
| Branded.DescriptionRow | convert_branded.py:54-56 | Non-branded rows are skipped; a branded row without fdc_id aborts; otherwise it stores the description, or "" |
| Branded.DescriptionsOfBrandedRows | convert_branded.py:50-56 | An fdc_id has a description iff some branded row carries it, and it is the last such row's |
| Branded.ServingSize | convert_branded.py:72-76 | The serving size is None when empty or not a number, and the parsed value otherwise |
| Branded.InfoRow | convert_branded.py:65-84 | Skipped iff the stripped barcode is empty; aborts iff there is a barcode but no fdc_id; otherwise stores the stripped barcode, brand, serving size and stripped unit fields |
| Branded.StoredBarcodesStripped | convert_branded.py:66-79 | Every stored barcode is non-empty and already stripped |
| Branded.BarcodeCounts | convert_branded.py:62-85 | Every branded row is skipped or stored, and `branded_info` has at most one entry per stored row |
| Branded.Amount | convert_branded.py:113-116 | The amount is 0 when empty or not a number, and the parsed value otherwise |
| Branded.NutrientRow | convert_branded.py:100-120 | A nutrient row aborts iff fdc_id is missing; it is kept iff the product is a target and the nutrient id parses and is known, with that column and amount |
| Branded.NutrientsOfTargets | convert_branded.py:90-120 | Only target products have nutrients, each with a non-empty dict of known columns |
| Branded.NutrientColumnLastWins | convert_branded.py:118-120 | A product's column holds the amount of the last kept row that set it |
| Branded.KeptColumnIsKnown | convert_branded.py:109-112 | A kept nutrient row names one of the eight columns |
| Branded.TextOrNull | convert_branded.py:177-180 | `x or None` is NULL exactly for the empty string |
| Branded.ProductRow | convert_branded.py:174-189 | The 14 INSERT values, column by column, with a missing nutrient as 0 |
| Branded.WriteProducts | convert_branded.py:159-190 | The write loop leaves the table and the three counters of the fold `Written` |
| Branded.WriteCounts | convert_branded.py:163-190 | Every product is counted exactly once as inserted or skipped, and the table has at most one row per INSERT |
| Branded.SkippedNoDescCounts | convert_branded.py:163-167 | `skipped_no_desc` is the number of products with no (or an empty) description |
| Branded.SkippedNoNutrientsCounts | convert_branded.py:163-172 | `skipped_no_nutrients` is the number of products that have a description but no nutrients |
| Branded.InsertedCounts | convert_branded.py:163-190 | `inserted` is the number of products that have both a description and nutrients |
| Branded.FirstProductWins | convert_branded.py:152-190 | A barcode has a row iff some inserted product carries it, and the row is the first such product's |
| Branded.DuplicatesAreIgnoredInserts | convert_branded.py:195-211 | The reported duplicate count equals the number of INSERTs ignored because the barcode was taken |
| Branded.RowsWellFormed | convert_branded.py:174-189 | Every stored row has 14 values, is keyed by its barcode column, and has a non-empty description |
| Branded.ConvertBranded | convert_branded.py:48-211 | The run succeeds iff no step meets a missing fdc_id; then the table and counters are the write loop's, the barcode skips are the skipped rows, and the duplicates are as reported |
| Fndds.ValueRowLength | convert_fndds.py:91-117 | There are 32 nutrient columns, and a value row has one value per INSERT column (34) |
| Fndds.BuildNutrientMap | convert_fndds.py:108-113 | The loop builds the `nutrient_map` of the fold `NutrientMapAfter` |
| Fndds.NutrientMapLastWins | convert_fndds.py:109-113 | A nutrient is in `nutrient_map` iff some entry with a non-zero mapped id sets it, and it holds the last such entry's `amount or 0` |
| Fndds.InsertColumns | convert_fndds.py:91-94 | The INSERT names food_code, then description, then the nutrient columns in order |
| Fndds.NutrientValues | convert_fndds.py:116-117 | One value per nutrient column, in column order, `nutrient_map.get(nid, 0)` |
| Fndds.BuildValues | convert_fndds.py:115-117 | The value list is the code, the description and the nutrient values, one per INSERT column |
| Fndds.UnmappedNutrientsGiveZeros | convert_fndds.py:108-117 | A food none of whose nutrients is mapped gets an empty map and all-zero nutrient columns |
| Fndds.PortionRows | convert_fndds.py:128-136 | Each written portion carries the food's code, a positive weight and a non-empty description |
| Fndds.PortionRowsComplete | convert_fndds.py:128-136 | A food's portion row with a given description and weight is written iff some portion with a positive weight and a non-empty description carries them |
| Fndds.PortionRowsCount | convert_fndds.py:128-136 | One row is written per usable portion: the number of rows is the number of portions with a positive weight and a non-empty description |
| Fndds.FoodValues | convert_fndds.py:100-117 | A foods row has 2 + 32 values, starting with the code and the description ("" when absent) |
| Fndds.InsertPortions | convert_fndds.py:128-136 | The portion loop appends exactly the usable portions and counts them |
| Fndds.ConvertFood | convert_fndds.py:107-138 | One included food: the INSERT (failing on a repeated code), the FTS row, the portions and the counter |
| Fndds.ConvertFndds | convert_fndds.py:99-138 | The food loop yields the fold `Converted` |
| Fndds.AbortIsFinal | convert_fndds.py:119 | Once a repeated code has raised, later foods change nothing |
| Fndds.SucceedsIffCodesDistinct | convert_fndds.py:99-119 | The run succeeds iff the included foods have distinct codes; the table's keys are then exactly those codes |
| Fndds.CountersMatchTables | convert_fndds.py:119-138 | `food_count` equals the number of foods rows and FTS rows, and `portion_count` the number of portion rows |
| Fndds.FoodRowsShaped | convert_fndds.py:115-119 | Every foods row is keyed by its first value and has one value per INSERT column |
| Fndds.FtsMirrorsFoods | convert_fndds.py:119-125 | Each FTS row names a stored food and carries that food's description, and no food is indexed twice |
| Fndds.PortionsReferenceFoods | convert_fndds.py:128-136 | Every portion row references a stored food and has a positive weight and a non-empty description |
| Fndds.StoredFoodRows | convert_fndds.py:99-119 | In a successful run every included food's row is the row built from it |

## Left out

- Number handling is left uninterpreted. `int()`, `float()`, `round()` and the text of a float in an f-string are parameters of type `Numerics`. Nothing about floating point is modelled: amounts are `real`, and any properties of rounding are outside the model.
- Reading files is out of the model:
  - CSV parsing, JSON parsing and file encodings;
  - the download of the ZIP and its extraction;
  - `find_csv`;
  - the existence checks on input files;
  - writing the JSON output file.
- A CSV row is a map from column to text. A short row, which `csv.DictReader` fills with `None`, is not modelled.
- JSON `null` values in the FNDDS document are not modelled: a field is present with its type, or absent. The code would raise on them: a `null` description violates NOT NULL, and a `null` gramWeight makes `>` raise TypeError.
- FNDDS gram weights and amounts are modelled as JSON numbers (`real`); other JSON types are not.
- Progress output is not modelled: the printed messages, the `count` and `rows_read` counters, and the sample query.
- The SQL schema is modelled only through the tables' keys and the value rows. Left out are the text of the DDL, column defaults and SQLite's type affinity.
- The FTS5 tokenizer and the search it enables are not modelled; the FTS table is the sequence of its rows.
- A failed FNDDS run is modelled as an error result. The database file it leaves behind (the uncommitted transaction) is not.
- `conn.commit()` and `conn.close()` are not modelled.
- Strings.Lower: only ASCII letters are lower-cased. Python's `str.lower` also maps other alphabets; names outside ASCII are sorted by their code points as they stand.
- SrBuild.SortByName: Python's `list.sort` (Timsort) is modelled as a stable insertion sort. Two stable sorts by the same key give the same list, and the model proves the result sorted and stable.
- The key order of the JSON objects written for SR Legacy entries is not modelled; an entry is a datatype with optional fields.
