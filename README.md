# Table heat map, modelled in Dafny

This project models the table heat-map directive of the cQube education
dashboard (`table-heat-map.directive.ts`). Elements marked `tableHeatMapColumn`
are the heat-map columns. Each column has an id and options, and the optional
`color` option is the column's base colour. Its data cells are heat-map
cells, each with a column id and a number. Once the view has settled, the
directive does three things in order:

1. it folds the columns into an options dictionary `config` (`setOptions`);
2. it records each column's running maximum in `highestValues`
   (`calculateHighestValues`);
3. it colours every cell (`applyHeatMap`) with the pair computed by
   `getColor`. A zero value gets black text on a white background. A column without a colour
   gets nothing. Any other cell gets a shade of the column colour, lighter
   for smaller values, with a readable text colour.

Files:

- `wrappers.dfy`: `Option` (null/undefined) and `Result` (a thrown error).
- `shading.dfy` (module `Shading`): the lightness arithmetic. `ToFixed3`
  models `+x.toFixed(3)`. `BackgroundLightness` models
  `1 - round3(value * (1 - l) / highest)`. It includes the division by a
  zero or missing maximum (`Num` = finite, ±Infinity, NaN).
- `heat_map.dfy` (module `HeatMap`): the records (`HeatColumn`, `HeatCell`,
  `Options`, `Style`, `ColorPair`) and the functions that specify each
  step:
  - `Configure` for `setOptions`;
  - `Observe` and `Highest` for `calculateHighestValues`;
  - `GetColor`;
  - `Restyle` and `Painted` for `applyHeatMap`.
- `heat_map_properties.dfy` (module `HeatMapProperties`): the lemmas about
  those functions.
- `directive.dfy` (module `TableHeatMap`): the class
  `TableHeatMapDirective`. It has the same four fields as the source.
  `SetOptions`, `CalculateHighestValues` and `ApplyHeatMap` are loops that
  update those fields in place, and each is proved equal to its
  specification function. `AfterViewInit` is the deferred pass that runs
  the three in order.

Modelling choices:

- Column ids are modelled as JavaScript property keys (strings). A numeric
  id and its decimal string name the same dictionary entry.
- Cell values are exact reals. "Falsy" means zero.
- A cell's element style is part of the cell record, with `""` for a
  property that was never set. `applyHeatMap` writes a property only when
  the computed colour is truthy, meaning neither null nor the empty string.
- The colour library (`parseToHsla`, `hsla`, `readableColor`) is a
  parameter, `ColorLib`. It is a record of three functions that the model
  does not look inside.
- `getColor` on a nonzero value whose column was never configured reads
  `.color` of `undefined`, which throws a `TypeError`. The model returns
  `Failure(UndefinedConfig(id))`. The error escapes `forEach`, so the
  colouring pass stops at that cell. Earlier cells keep their new styles,
  and that cell and later ones keep their old styles. `PaintedCell` states
  which cells get new styles, and `PaintedStopsAtFirstError` states which
  error escapes.
- `highestValues` is never cleared, so each pass starts from the
  previous maxima rather than from an empty dictionary. The model does the
  same:
  `CalculateHighestValues` ensures
  `highestValues == Highest(old(highestValues), cells)`. A repeated pass
  over the same cells is still harmless (`SecondPassChangesNothing`).

## Model

| member | source | states |
|---|---|---|
| `TableHeatMap.TableHeatMapDirective.constructor` | front-end/src/app/shared/directives/table-heat-map/table-heat-map.directive.ts:41-44 | a new directive has empty dictionaries and no cells or columns |
| `TableHeatMap.TableHeatMapDirective.AfterViewInit` | front-end/src/app/shared/directives/table-heat-map/table-heat-map.directive.ts:47-59 | the deferred pass keeps the old cells/columns when a query list is undefined, then leaves `config`, `highestValues` and the cells' styles exactly as `Configure`, `Highest` and `Painted` say, returning the error that escapes |
| `TableHeatMap.TableHeatMapDirective.SetOptions` | front-end/src/app/shared/directives/table-heat-map/table-heat-map.directive.ts:62-69 | the loop over the columns leaves `config == Configure(old(config), columns)` |
| `HeatMap.Configure` | front-end/src/app/shared/directives/table-heat-map/table-heat-map.directive.ts:62-69 | folding the columns in keeps every old key and gives every declared column id an entry; `ConfigureLastWins` and `ConfigureKeys` state which options each key holds and that no other key appears |
| `HeatMap.LastIndexOf` | front-end/src/app/shared/directives/table-heat-map/table-heat-map.directive.ts:63-67 | the index found is -1 exactly when no column has the id; otherwise that column has the id and no later one does |
| `HeatMapProperties.ConfigureLastWins` | front-end/src/app/shared/directives/table-heat-map/table-heat-map.directive.ts:62-69 | an id is a key afterwards iff it was before or some column declares it; a declared id maps to the options of its last column; other keys keep their options |
| `HeatMapProperties.ConfigureKeys` | front-end/src/app/shared/directives/table-heat-map/table-heat-map.directive.ts:62-69 | the keys afterwards are the old keys plus the columns' ids and nothing else |
| `HeatMapProperties.ConfigureIdempotent` | front-end/src/app/shared/directives/table-heat-map/table-heat-map.directive.ts:62-69 | folding the same columns in again leaves the dictionary unchanged |
| `TableHeatMap.TableHeatMapDirective.CalculateHighestValues` | front-end/src/app/shared/directives/table-heat-map/table-heat-map.directive.ts:71-79 | the loop over the cells leaves `highestValues == Highest(old(highestValues), cells)` |
| `HeatMap.Highest` | front-end/src/app/shared/directives/table-heat-map/table-heat-map.directive.ts:71-79 | the maxima pass keeps every old key and never lowers an entry; `HighestKeys`, `HighestIsRunningMax` and `HighestFromEmpty` state which keys appear and that each entry is its column's running maximum |
| `HeatMap.Observe` | front-end/src/app/shared/directives/table-heat-map/table-heat-map.directive.ts:73-78 | one cell adds only its own column as a key, leaves every other entry alone, and sets its column to the larger of the old entry (or 0) and the cell's value |
| `HeatMapProperties.HighestKeys` | front-end/src/app/shared/directives/table-heat-map/table-heat-map.directive.ts:71-79 | every column that a cell belongs to gets an entry, and no other key is added |
| `HeatMapProperties.HighestIsRunningMax` | front-end/src/app/shared/directives/table-heat-map/table-heat-map.directive.ts:71-79 | an entry is at least its starting value (old entry or 0) and every value of its column, and equals one of them |
| `HeatMapProperties.HighestFromEmpty` | front-end/src/app/shared/directives/table-heat-map/table-heat-map.directive.ts:71-79 | from an empty dictionary the keys are exactly the cells' columns, and each entry is the maximum of 0 and its column's values |
| `HeatMapProperties.HighestNonNegative` | front-end/src/app/shared/directives/table-heat-map/table-heat-map.directive.ts:73-78 | entries that start non-negative stay non-negative |
| `HeatMapProperties.NonPositiveColumnEndsAtZero` | front-end/src/app/shared/directives/table-heat-map/table-heat-map.directive.ts:73-78 | from an empty dictionary, a column whose values are all at most 0 ends with maximum 0 |
| `HeatMapProperties.HighestNeverDecreases` | front-end/src/app/shared/directives/table-heat-map/table-heat-map.directive.ts:77-78 | an entry after any prefix of the cells is at most the final entry |
| `HeatMapProperties.ObserveKeepsNotGreater` | front-end/src/app/shared/directives/table-heat-map/table-heat-map.directive.ts:77-78 | the comparison is strict: a value equal to or below the current entry leaves the dictionary unchanged |
| `HeatMapProperties.HighestIdempotent` | front-end/src/app/shared/directives/table-heat-map/table-heat-map.directive.ts:71-79 | observing the same cells again leaves the maxima unchanged |
| `HeatMapProperties.HighestIgnoresStyles` | front-end/src/app/shared/directives/table-heat-map/table-heat-map.directive.ts:72-78 | the maxima depend only on the cells' column ids and values |
| `HeatMap.GetColor` | front-end/src/app/shared/directives/table-heat-map/table-heat-map.directive.ts:90-112 | a zero value gives `#fff`/`#000` whatever the configuration. A nonzero value in an unconfigured column is an error. A configured column without a colour gives null/null. Otherwise the background is `hsla` of the base colour's hue, saturation and alpha with the lightness `BackgroundLightness` gives for the value and the column maximum (NaN when the column has no maximum), and the text colour is `readableColor` of that background |
| `Shading.ToFixed3` | front-end/src/app/shared/directives/table-heat-map/table-heat-map.directive.ts:99 | the result is a multiple of 0.001 within 0.0005 of the input, a tie going away from zero, and has the input's sign |
| `Shading.BackgroundLightness` | front-end/src/app/shared/directives/table-heat-map/table-heat-map.directive.ts:96-100 | with a nonzero maximum the lightness is finite and within rounding of `1 − value·(1 − l)/maximum`; a zero maximum gives ±Infinity or NaN and a missing one NaN; `ShadeAtColumnMax`, `ShadeMonotone` and `ShadeRange` state what that means for the shades |
| `Shading.ToFixed3Exact` | front-end/src/app/shared/directives/table-heat-map/table-heat-map.directive.ts:99 | a number with at most three decimals is left unchanged |
| `Shading.ToFixed3Monotone` | front-end/src/app/shared/directives/table-heat-map/table-heat-map.directive.ts:99 | rounding preserves order |
| `Shading.ShadeAtColumnMax` | front-end/src/app/shared/directives/table-heat-map/table-heat-map.directive.ts:96-100 | a value equal to the column maximum gets exactly the base colour's lightness (a three-decimal lightness) |
| `Shading.ShadeMonotone` | front-end/src/app/shared/directives/table-heat-map/table-heat-map.directive.ts:96-100 | with a positive maximum, a smaller value never gets a darker background |
| `Shading.ShadeRange` | front-end/src/app/shared/directives/table-heat-map/table-heat-map.directive.ts:96-100 | a value in (0, maximum] gets a lightness between the rounded base lightness and 1 |
| `Shading.NegativeValueOverflowsWhite` | front-end/src/app/shared/directives/table-heat-map/table-heat-map.directive.ts:97-100 | nothing clamps the result: the value −maximum on a black base gives lightness 2 |
| `Shading.NegativeValueAtLeastWhite` | front-end/src/app/shared/directives/table-heat-map/table-heat-map.directive.ts:97-100 | with a positive maximum and a base lightness at most 1, every negative value gets a lightness of at least 1 |
| `Shading.ShadeOfZeroMaximum` | front-end/src/app/shared/directives/table-heat-map/table-heat-map.directive.ts:97-100 | a negative value in a column whose maximum is 0 divides by zero and yields lightness +Infinity |
| `HeatMapProperties.ColumnMaxCellGetsBaseShade` | front-end/src/app/shared/directives/table-heat-map/table-heat-map.directive.ts:90-112 | after the maxima pass, the cell holding its column's positive maximum gets `hsla(h, s, l, a)` of the base colour itself and its readable text colour |
| `HeatMapProperties.SameColumnShadesOrdered` | front-end/src/app/shared/directives/table-heat-map/table-heat-map.directive.ts:96-100 | of two cells in one column (the larger positive), the smaller value gets a lightness at least as high |
| `HeatMapProperties.PositiveCellShadeInRange` | front-end/src/app/shared/directives/table-heat-map/table-heat-map.directive.ts:96-100 | after the maxima pass, every positive cell's lightness lies between its base colour's rounded lightness and 1 |
| `HeatMapProperties.NonPositiveColumnShade` | front-end/src/app/shared/directives/table-heat-map/table-heat-map.directive.ts:73-98 | in a column without a positive value the maximum stays 0, so a negative cell's lightness is +Infinity |
| `TableHeatMap.TableHeatMapDirective.ApplyHeatMap` | front-end/src/app/shared/directives/table-heat-map/table-heat-map.directive.ts:82-88 | the loop over the cells leaves the cells and the escaping error equal to `Painted(config, highestValues, lib, old(cells))` |
| `HeatMap.Painted` | front-end/src/app/shared/directives/table-heat-map/table-heat-map.directive.ts:82-88 | the colouring pass keeps the number of cells; `PaintedCell`, `PaintedSucceedsIffAllCells` and `PaintedStopsAtFirstError` state which cells get which style and which error escapes |
| `HeatMap.Restyle` | front-end/src/app/shared/directives/table-heat-map/table-heat-map.directive.ts:85-86 | each style property becomes the computed colour when that colour is truthy, and otherwise keeps its old value (a null or empty colour writes nothing) |
| `HeatMapProperties.PaintedCell` | front-end/src/app/shared/directives/table-heat-map/table-heat-map.directive.ts:82-88 | a cell is restyled with its own colours when it and every earlier cell got colours, and is left untouched otherwise |
| `HeatMapProperties.PaintedKeepsIdsAndValues` | front-end/src/app/shared/directives/table-heat-map/table-heat-map.directive.ts:82-88 | the pass changes styles only: ids and values stay |
| `HeatMapProperties.PaintedSucceedsIffAllCells` | front-end/src/app/shared/directives/table-heat-map/table-heat-map.directive.ts:82-92 | the pass finishes without an error iff every cell's colours can be computed |
| `HeatMapProperties.PaintedStopsAtFirstError` | front-end/src/app/shared/directives/table-heat-map/table-heat-map.directive.ts:82-92 | the error reported is that of the first cell whose colours cannot be computed |
| `HeatMapProperties.PaintedIdempotent` | front-end/src/app/shared/directives/table-heat-map/table-heat-map.directive.ts:82-88 | colouring already-coloured cells again changes nothing |
| `HeatMapProperties.SecondPassChangesNothing` | front-end/src/app/shared/directives/table-heat-map/table-heat-map.directive.ts:56-58 | a second pass over the same columns and cells leaves options, maxima and styles as the first one left them |

## Left out

- The one-second `setTimeout` and Angular's `ContentChildren`/`QueryList`
  discovery (lines 46-55). These are framework timing and lookup.
  `AfterViewInit` takes the found cells and columns as inputs, with None
  for an undefined query list.
- Binary floating point. Numbers are exact reals, so `toFixed(3)` is exact
  decimal rounding. The exponent form that `toFixed` gives for magnitudes
  of 1e21 and above is not modelled. Infinities and NaN appear only where
  the lightness arithmetic divides by a zero or missing maximum.
- What `parseToHsla`, `hsla` and `readableColor` compute, and whether
  `parseToHsla` throws on an unparseable colour. The colour library is
  not part of this model, so `ColorLib` takes them as given total
  functions.
- Real DOM style mutation: the browser's normalisation of colour strings,
  and two cells sharing one element. A style is a record in the cell.
- JavaScript coercion corner cases:
  - unary `+` on non-numeric strings;
  - NaN values;
  - `null` ids becoming the key `"null"`;
  - `config[id]` finding an inherited property such as `toString`;
  - options bound to `null`/`undefined`.
- `development/ui/front-end/src/app/views/school-registry/school-registry.module.ts`.
  It only declares Angular components and imports; it has no behaviour.
