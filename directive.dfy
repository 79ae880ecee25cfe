/**
 * The heat-map directive object: it keeps the discovered cells and columns,
 * the options dictionary and the per-column maxima as fields, and updates
 * them in place, one column or cell at a time.
 */
module TableHeatMap {
  import opened Wrappers
  import opened HeatMap

  /**
   * One cell of the colouring pass: restyling cell i with its colours moves
   * it from the part still to be coloured to the coloured prefix.
   */
  lemma PaintStep(config: map<ColId, Options>, highest: map<ColId, real>, lib: ColorLib,
                  cells: seq<HeatCell>, i: nat, whole: PaintResult)
    requires i < |cells|
    requires GetColor(config, highest, lib, cells[i].colId, cells[i].value).Success?
    requires whole == PaintResult(cells[..i] + Painted(config, highest, lib, cells[i..]).cells,
                                  Painted(config, highest, lib, cells[i..]).error)
    ensures var pair := GetColor(config, highest, lib, cells[i].colId, cells[i].value).value;
            var next := cells[i := cells[i].(style := Restyle(cells[i].style, pair))];
            whole == PaintResult(next[..i + 1] + Painted(config, highest, lib, next[i + 1..]).cells,
                                 Painted(config, highest, lib, next[i + 1..]).error)
  {
    var pair := GetColor(config, highest, lib, cells[i].colId, cells[i].value).value;
    var painted := cells[i].(style := Restyle(cells[i].style, pair));
    var next := cells[i := painted];
    PaintedFirst(config, highest, lib, cells[i..]);
    assert cells[i..][1..] == next[i + 1..];
    var later := Painted(config, highest, lib, next[i + 1..]).cells;
    assert next[..i + 1] == cells[..i] + [painted];
    assert cells[..i] + ([painted] + later) == (cells[..i] + [painted]) + later;
  }

  /** A colouring pass that stops at cell i leaves the cells as they are from i on. */
  lemma PaintStop(config: map<ColId, Options>, highest: map<ColId, real>, lib: ColorLib,
                  cells: seq<HeatCell>, i: nat, whole: PaintResult)
    requires i < |cells|
    requires GetColor(config, highest, lib, cells[i].colId, cells[i].value).Failure?
    requires whole == PaintResult(cells[..i] + Painted(config, highest, lib, cells[i..]).cells,
                                  Painted(config, highest, lib, cells[i..]).error)
    ensures whole == PaintResult(cells, Some(GetColor(config, highest, lib, cells[i].colId, cells[i].value).error))
  {
    PaintedFirstFails(config, highest, lib, cells[i..]);
    assert cells[..i] + cells[i..] == cells;
  }

  class TableHeatMapDirective {
    var highestValues: map<ColId, real>
    var cells: seq<HeatCell>
    var columns: seq<HeatColumn>
    var config: map<ColId, Options>

    constructor ()
      ensures highestValues == map[] && cells == [] && columns == [] && config == map[]
    {
      highestValues := map[];
      cells := [];
      columns := [];
      config := map[];
    }

    /**
     * The deferred pass run once the view is attached: take the cells and
     * columns found (None when the query list is undefined, which keeps the
     * old ones), then configure, compute the maxima and colour the cells.
     * Returns the error that escapes the pass, if any.
     */
    method AfterViewInit(lib: ColorLib, foundCells: Option<seq<HeatCell>>, foundColumns: Option<seq<HeatColumn>>)
      returns (err: Option<HeatMapError>)
      modifies this
      ensures columns == if foundColumns.Some? then foundColumns.value else old(columns)
      ensures config == Configure(old(config), columns)
      ensures var found := if foundCells.Some? then foundCells.value else old(cells);
              && highestValues == Highest(old(highestValues), found)
              && PaintResult(cells, err) == Painted(config, highestValues, lib, found)
    {
      if foundCells.Some? {
        cells := foundCells.value;
      }
      if foundColumns.Some? {
        columns := foundColumns.value;
      }
      SetOptions();
      CalculateHighestValues();
      err := ApplyHeatMap(lib);
    }

    /** Folds the columns into the options dictionary, a later column overriding an earlier one. */
    method SetOptions()
      modifies this`config
      ensures config == Configure(old(config), columns)
    {
      for i := 0 to |columns|
        invariant config == Configure(old(config), columns[..i])
      {
        assert columns[..i + 1][..i] == columns[..i];
        config := config[columns[i].colId := columns[i].options];
      }
      assert columns[..|columns|] == columns;
    }

    /** Raises each cell's column entry to the cell's value, seeding a new column with 0. */
    method CalculateHighestValues()
      modifies this`highestValues
      ensures highestValues == Highest(old(highestValues), cells)
    {
      for i := 0 to |cells|
        invariant highestValues == Highest(old(highestValues), cells[..i])
      {
        var cell := cells[i];
        assert cells[..i + 1][..i] == cells[..i];
        if cell.colId !in highestValues {
          highestValues := highestValues[cell.colId := 0.0];
        }
        if cell.value > highestValues[cell.colId] {
          highestValues := highestValues[cell.colId := cell.value];
        }
      }
      assert cells[..|cells|] == cells;
    }

    /**
     * Writes each cell's computed colours into its style, a property only when
     * its colour is truthy. A cell whose colours cannot be computed ends the
     * pass with that error.
     */
    method ApplyHeatMap(lib: ColorLib) returns (err: Option<HeatMapError>)
      modifies this`cells
      ensures PaintResult(cells, err) == Painted(config, highestValues, lib, old(cells))
    {
      var cfg, highest := config, highestValues;
      ghost var whole := Painted(cfg, highest, lib, cells);
      assert cells[..0] + cells[0..] == cells;
      var i := 0;
      while i < |cells|
        invariant 0 <= i <= |cells|
        invariant whole == PaintResult(cells[..i] + Painted(cfg, highest, lib, cells[i..]).cells,
                                       Painted(cfg, highest, lib, cells[i..]).error)
      {
        var cell := cells[i];
        var colors := GetColor(cfg, highest, lib, cell.colId, cell.value);
        if colors.Failure? {
          err := Some(colors.error);
          PaintStop(cfg, highest, lib, cells, i, whole);
          return;
        }
        var style := cell.style;
        if Truthy(colors.value.bgColor) {
          style := style.(backgroundColor := colors.value.bgColor.value);
        }
        if Truthy(colors.value.color) {
          style := style.(color := colors.value.color.value);
        }
        assert style == Restyle(cell.style, colors.value);
        PaintStep(cfg, highest, lib, cells, i, whole);
        cells := cells[i := cell.(style := style)];
        i := i + 1;
      }
      err := None;
      assert cells[..i] == cells;
    }
  }
}
