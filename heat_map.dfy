/**
 * The table heat map: columns declare per-column options, cells carry a
 * column id and a number, and every cell is coloured by its value relative to
 * the largest value recorded for its column.
 *
 * Everything here is a function of its inputs; the directive object that owns
 * the dictionaries and updates them in place is in module TableHeatMap.
 */
module HeatMap {
  import opened Wrappers
  import opened Shading

  /** A column id in the form a JavaScript object uses as a property key. */
  type ColId = string

  /** A CSS colour string. */
  type Color = string

  /** A column's options; `color` is None when it is null or undefined. */
  datatype Options = Options(color: Option<Color>)

  /** A column declaration: its id and its options. */
  datatype HeatColumn = HeatColumn(colId: ColId, options: Options)

  /** The inline style of a cell's element; "" is a property never set. */
  datatype Style = Style(backgroundColor: string, color: string)

  /** A cell: its column id, its number and the style of its element. */
  datatype HeatCell = HeatCell(colId: ColId, value: real, style: Style)

  /** The pair `{bgColor, color}` computed for a cell; None is null. */
  datatype ColorPair = ColorPair(bgColor: Option<Color>, color: Option<Color>)

  /** Reading `.color` of the options of a column that was never configured throws. */
  datatype HeatMapError = UndefinedConfig(colId: ColId)

  /** The colour components returned by the colour library's parser. */
  datatype Hsla = Hsla(h: real, s: real, l: real, a: real)

  /** The three colour-library calls the heat map makes. */
  datatype ColorLib = ColorLib(
    parseToHsla: Color -> Hsla,
    hsla: (real, real, Num, real) -> Color,
    readableColor: Color -> Color)

  const White: Color := "#fff"
  const Black: Color := "#000"

  /** The pair every falsy (zero) value receives. */
  const DefaultPair: ColorPair := ColorPair(Some(White), Some(Black))

  // ---------------------------------------------------------------------------
  // Options: the dictionary from column id to options

  /** The index of the last column declared with `id`, or -1 if there is none. */
  function LastIndexOf(columns: seq<HeatColumn>, id: ColId): (k: int)
    ensures -1 <= k < |columns|
    ensures k == -1 <==> forall j :: 0 <= j < |columns| ==> columns[j].colId != id
    ensures k >= 0 ==> columns[k].colId == id && forall j :: k < j < |columns| ==> columns[j].colId != id
  {
    if |columns| == 0 then -1
    else if columns[|columns| - 1].colId == id then |columns| - 1
    else LastIndexOf(columns[..|columns| - 1], id)
  }

  /** `config` after `{...config, [col.colId]: col.options}` for each column in turn. */
  function Configure(config: map<ColId, Options>, columns: seq<HeatColumn>): (r: map<ColId, Options>)
    ensures config.Keys <= r.Keys
    ensures forall j :: 0 <= j < |columns| ==> columns[j].colId in r
    decreases |columns|
  {
    if |columns| == 0 then config
    else
      var last := columns[|columns| - 1];
      Configure(config, columns[..|columns| - 1])[last.colId := last.options]
  }

  // ---------------------------------------------------------------------------
  // Highest values: the running maximum per column

  /** The ids of the columns that the cells belong to. */
  function ColumnIds(cells: seq<HeatCell>): set<ColId>
  {
    set i | 0 <= i < |cells| :: cells[i].colId
  }

  /** The value a column's running maximum starts from: its entry, or 0 when it has none. */
  function BaseOf(highest: map<ColId, real>, id: ColId): real
  {
    if id in highest then highest[id] else 0.0
  }

  /** One step of the running maximum: seed the cell's column with 0, then raise it by `>`. */
  function Observe(highest: map<ColId, real>, cell: HeatCell): (r: map<ColId, real>)
    ensures r.Keys == highest.Keys + {cell.colId}
    ensures forall id :: id in highest && id != cell.colId ==> r[id] == highest[id]
    ensures BaseOf(highest, cell.colId) <= r[cell.colId] && cell.value <= r[cell.colId]
    ensures r[cell.colId] == BaseOf(highest, cell.colId) || r[cell.colId] == cell.value
  {
    var seeded := if cell.colId in highest then highest else highest[cell.colId := 0.0];
    if cell.value > seeded[cell.colId] then seeded[cell.colId := cell.value] else seeded
  }

  /** The dictionary after observing every cell in order. */
  function Highest(highest: map<ColId, real>, cells: seq<HeatCell>): (r: map<ColId, real>)
    ensures highest.Keys <= r.Keys
    ensures forall id {:trigger highest[id]} :: id in highest ==> highest[id] <= r[id]
    decreases |cells|
  {
    if |cells| == 0 then highest
    else Observe(Highest(highest, cells[..|cells| - 1]), cells[|cells| - 1])
  }

  // ---------------------------------------------------------------------------
  // Colours

  /**
   * The colours for a cell of column `id` holding `value`: the fixed pair for
   * a falsy value, nulls for a column without a colour, otherwise a shade of
   * the column's colour with a readable text colour.
   */
  function GetColor(config: map<ColId, Options>, highest: map<ColId, real>, lib: ColorLib,
                    id: ColId, value: real): (r: Result<ColorPair, HeatMapError>)
    ensures value == 0.0 ==> r == Success(DefaultPair)
    ensures r.Failure? <==> value != 0.0 && id !in config
    ensures r.Failure? ==> r.error == UndefinedConfig(id)
    ensures r.Success? && value != 0.0 ==> (r.value.bgColor.None? <==> config[id].color.None?)
    ensures r.Success? ==> (r.value.bgColor.None? <==> r.value.color.None?)
    ensures r.Success? && value != 0.0 && r.value.bgColor.Some? ==>
              r.value.color == Some(lib.readableColor(r.value.bgColor.value))
    ensures r.Success? && value != 0.0 && config[id].color.Some? ==>
              var c := lib.parseToHsla(config[id].color.value);
              var max := if id in highest then Some(highest[id]) else None;
              r.value.bgColor == Some(lib.hsla(c.h, c.s, BackgroundLightness(value, c.l, max), c.a))
  {
    if value != 0.0 then
      if id !in config then Failure(UndefinedConfig(id))
      else
        match config[id].color
        case None => Success(ColorPair(None, None))
        case Some(base) =>
          var c := lib.parseToHsla(base);
          var max := if id in highest then Some(highest[id]) else None;
          var bg := lib.hsla(c.h, c.s, BackgroundLightness(value, c.l, max), c.a);
          Success(ColorPair(Some(bg), Some(lib.readableColor(bg))))
    else
      Success(DefaultPair)
  }

  // ---------------------------------------------------------------------------
  // Applying the colours

  /** JavaScript truthiness of a string or null. */
  predicate Truthy(c: Option<Color>)
  {
    c.Some? && c.value != ""
  }

  /** A style after `if (bgColor) style.backgroundColor = bgColor; if (color) style.color = color`. */
  function Restyle(style: Style, pair: ColorPair): (r: Style)
    ensures r.backgroundColor == style.backgroundColor
            || (Truthy(pair.bgColor) && r.backgroundColor == pair.bgColor.value)
    ensures r.color == style.color || (Truthy(pair.color) && r.color == pair.color.value)
    ensures Truthy(pair.bgColor) ==> r.backgroundColor == pair.bgColor.value
    ensures Truthy(pair.color) ==> r.color == pair.color.value
  {
    Style(if Truthy(pair.bgColor) then pair.bgColor.value else style.backgroundColor,
          if Truthy(pair.color) then pair.color.value else style.color)
  }

  /** The cells after a colouring pass, and the error that stopped it, if any. */
  datatype PaintResult = PaintResult(cells: seq<HeatCell>, error: Option<HeatMapError>)

  /**
   * Colours the cells in order. The first cell whose colours cannot be
   * computed stops the pass: it and every later cell keep their styles.
   */
  function Painted(config: map<ColId, Options>, highest: map<ColId, real>, lib: ColorLib,
                   cells: seq<HeatCell>): (r: PaintResult)
    ensures |r.cells| == |cells|
  {
    if |cells| == 0 then PaintResult([], None)
    else
      match GetColor(config, highest, lib, cells[0].colId, cells[0].value)
      case Failure(e) => PaintResult(cells, Some(e))
      case Success(pair) =>
        var rest := Painted(config, highest, lib, cells[1..]);
        PaintResult([cells[0].(style := Restyle(cells[0].style, pair))] + rest.cells, rest.error)
  }

  /** How a pass treats its first cell once that cell's colours are known. */
  lemma PaintedFirst(config: map<ColId, Options>, highest: map<ColId, real>, lib: ColorLib, cells: seq<HeatCell>)
    requires |cells| > 0
    requires GetColor(config, highest, lib, cells[0].colId, cells[0].value).Success?
    ensures var pair := GetColor(config, highest, lib, cells[0].colId, cells[0].value).value;
            var rest := Painted(config, highest, lib, cells[1..]);
            Painted(config, highest, lib, cells)
              == PaintResult([cells[0].(style := Restyle(cells[0].style, pair))] + rest.cells, rest.error)
  {
  }

  /** A pass whose first cell's colours cannot be computed stops there and changes nothing. */
  lemma PaintedFirstFails(config: map<ColId, Options>, highest: map<ColId, real>, lib: ColorLib, cells: seq<HeatCell>)
    requires |cells| > 0
    requires GetColor(config, highest, lib, cells[0].colId, cells[0].value).Failure?
    ensures Painted(config, highest, lib, cells)
              == PaintResult(cells, Some(GetColor(config, highest, lib, cells[0].colId, cells[0].value).error))
  {
  }
}
