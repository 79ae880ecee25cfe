/** What the options dictionary, the running maxima and the colouring pass guarantee. */
module HeatMapProperties {
  import opened Wrappers
  import opened Shading
  import opened HeatMap

  // ---------------------------------------------------------------------------
  // Options

  /**
   * After configuring, a column id is a key exactly when it was one before or
   * some column declares it; a declared id maps to the options of its LAST
   * column, and every other key keeps its earlier options.
   */
  lemma {:induction false} ConfigureLastWins(config: map<ColId, Options>, columns: seq<HeatColumn>, id: ColId)
    ensures id in Configure(config, columns) <==> id in config || LastIndexOf(columns, id) >= 0
    ensures LastIndexOf(columns, id) >= 0 ==>
              Configure(config, columns)[id] == columns[LastIndexOf(columns, id)].options
    ensures LastIndexOf(columns, id) < 0 && id in config ==>
              Configure(config, columns)[id] == config[id]
  {
    if |columns| > 0 {
      ConfigureLastWins(config, columns[..|columns| - 1], id);
    }
  }

  /** The keys after configuring are the earlier keys and the declared ids, nothing else. */
  lemma {:induction false} ConfigureKeys(config: map<ColId, Options>, columns: seq<HeatColumn>)
    ensures Configure(config, columns).Keys == config.Keys + set j | 0 <= j < |columns| :: columns[j].colId
  {
    forall id ensures id in Configure(config, columns) <==>
                      id in config || exists j :: 0 <= j < |columns| && columns[j].colId == id {
      ConfigureLastWins(config, columns, id);
    }
  }

  /** Declaring the same columns again changes nothing. */
  lemma ConfigureIdempotent(config: map<ColId, Options>, columns: seq<HeatColumn>)
    ensures Configure(Configure(config, columns), columns) == Configure(config, columns)
  {
    var once := Configure(config, columns);
    var twice := Configure(once, columns);
    forall id ensures (id in twice <==> id in once) && (id in once ==> twice[id] == once[id]) {
      ConfigureLastWins(config, columns, id);
      ConfigureLastWins(once, columns, id);
    }
    assert twice.Keys == once.Keys;
  }

  // ---------------------------------------------------------------------------
  // Highest values

  /** Every column some cell belongs to gets an entry, and no other key is added. */
  lemma {:induction false} HighestKeys(highest: map<ColId, real>, cells: seq<HeatCell>)
    ensures Highest(highest, cells).Keys == highest.Keys + ColumnIds(cells)
  {
    if |cells| > 0 {
      var prefix := cells[..|cells| - 1];
      HighestKeys(highest, prefix);
      forall id | id in ColumnIds(cells) ensures id in ColumnIds(prefix) + {cells[|cells| - 1].colId} {
        var i :| 0 <= i < |cells| && cells[i].colId == id;
        if i < |cells| - 1 {
          assert prefix[i] == cells[i];
        }
      }
      forall id | id in ColumnIds(prefix) ensures id in ColumnIds(cells) {
        var i :| 0 <= i < |prefix| && prefix[i].colId == id;
        assert cells[i] == prefix[i];
      }
    }
  }

  /**
   * A column's entry is the maximum of where it started (its earlier entry,
   * or 0) and the values of the column's cells: it is at least each of them
   * and equal to one of them.
   */
  lemma {:induction false} HighestIsRunningMax(highest: map<ColId, real>, cells: seq<HeatCell>, id: ColId)
    requires id in Highest(highest, cells)
    ensures BaseOf(highest, id) <= Highest(highest, cells)[id]
    ensures forall i :: 0 <= i < |cells| && cells[i].colId == id ==> cells[i].value <= Highest(highest, cells)[id]
    ensures Highest(highest, cells)[id] == BaseOf(highest, id) ||
            exists i :: 0 <= i < |cells| && cells[i].colId == id && cells[i].value == Highest(highest, cells)[id]
  {
    if |cells| > 0 {
      var n := |cells|;
      var prefix := cells[..n - 1];
      var last := cells[n - 1];
      var h := Highest(highest, prefix);
      var r := Highest(highest, cells);
      assert r == Observe(h, last);
      if id in h {
        HighestIsRunningMax(highest, prefix, id);
        assert h[id] <= r[id];
        forall i | 0 <= i < n && cells[i].colId == id ensures cells[i].value <= r[id] {
          if i < n - 1 {
            assert prefix[i] == cells[i];
          }
        }
        if r[id] != BaseOf(highest, id) {
          if r[id] == h[id] {
            var i :| 0 <= i < |prefix| && prefix[i].colId == id && prefix[i].value == h[id];
            assert cells[i] == prefix[i];
          } else {
            assert last.colId == id && r[id] == last.value;
          }
        }
      } else {
        HighestKeys(highest, prefix);
        assert id !in highest && id !in ColumnIds(prefix);
        assert last.colId == id;
        forall i | 0 <= i < n - 1 ensures cells[i].colId != id {
          assert prefix[i] == cells[i];
        }
      }
    }
  }

  /**
   * Starting from an empty dictionary, the keys are the cells' columns and
   * each entry is the largest of 0 and that column's values.
   */
  lemma HighestFromEmpty(cells: seq<HeatCell>, id: ColId)
    ensures id in Highest(map[], cells) <==> id in ColumnIds(cells)
    ensures id in ColumnIds(cells) ==>
              && Highest(map[], cells)[id] >= 0.0
              && (forall i :: 0 <= i < |cells| && cells[i].colId == id ==> cells[i].value <= Highest(map[], cells)[id])
              && (Highest(map[], cells)[id] == 0.0 ||
                  exists i :: 0 <= i < |cells| && cells[i].colId == id && cells[i].value == Highest(map[], cells)[id])
  {
    HighestKeys(map[], cells);
    if id in ColumnIds(cells) {
      HighestIsRunningMax(map[], cells, id);
    }
  }

  /** From an empty dictionary, a column whose values are all at most 0 ends with maximum 0. */
  lemma NonPositiveColumnEndsAtZero(cells: seq<HeatCell>, id: ColId)
    requires id in ColumnIds(cells)
    requires forall i :: 0 <= i < |cells| && cells[i].colId == id ==> cells[i].value <= 0.0
    ensures id in Highest(map[], cells) && Highest(map[], cells)[id] == 0.0
  {
    HighestFromEmpty(cells, id);
  }

  /** Entries that start non-negative stay non-negative. */
  lemma {:induction false} HighestNonNegative(highest: map<ColId, real>, cells: seq<HeatCell>)
    requires forall id :: id in highest ==> highest[id] >= 0.0
    ensures forall id :: id in Highest(highest, cells) ==> Highest(highest, cells)[id] >= 0.0
  {
    forall id | id in Highest(highest, cells) ensures Highest(highest, cells)[id] >= 0.0 {
      HighestIsRunningMax(highest, cells, id);
    }
  }

  /** Entries never decrease as the pass goes on: each prefix's entry is at most the final one. */
  lemma HighestNeverDecreases(highest: map<ColId, real>, cells: seq<HeatCell>, j: nat, id: ColId)
    requires j <= |cells|
    requires id in Highest(highest, cells[..j])
    ensures id in Highest(highest, cells)
    ensures Highest(highest, cells[..j])[id] <= Highest(highest, cells)[id]
  {
    var prefix := cells[..j];
    HighestKeys(highest, prefix);
    HighestKeys(highest, cells);
    if id in ColumnIds(prefix) {
      var i :| 0 <= i < |prefix| && prefix[i].colId == id;
      assert cells[i] == prefix[i];
    }
    HighestIsRunningMax(highest, prefix, id);
    HighestIsRunningMax(highest, cells, id);
    if Highest(highest, prefix)[id] != BaseOf(highest, id) {
      var i :| 0 <= i < |prefix| && prefix[i].colId == id && prefix[i].value == Highest(highest, prefix)[id];
      assert cells[i] == prefix[i];
    }
  }

  /** The comparison is strict: a value not above the current entry leaves the dictionary as it is. */
  lemma ObserveKeepsNotGreater(highest: map<ColId, real>, cell: HeatCell)
    requires cell.colId in highest && cell.value <= highest[cell.colId]
    ensures Observe(highest, cell) == highest
  {
  }

  /** Observing the same cells again changes nothing. */
  lemma HighestIdempotent(highest: map<ColId, real>, cells: seq<HeatCell>)
    ensures Highest(Highest(highest, cells), cells) == Highest(highest, cells)
  {
    var once := Highest(highest, cells);
    var twice := Highest(once, cells);
    HighestKeys(highest, cells);
    HighestKeys(once, cells);
    forall id | id in once ensures twice[id] == once[id] {
      HighestIsRunningMax(once, cells, id);
      HighestIsRunningMax(highest, cells, id);
    }
  }

  /** Only the column ids and values of the cells matter, not their styles. */
  lemma {:induction false} HighestIgnoresStyles(highest: map<ColId, real>, a: seq<HeatCell>, b: seq<HeatCell>)
    requires |a| == |b|
    requires forall i :: 0 <= i < |a| ==> a[i].colId == b[i].colId && a[i].value == b[i].value
    ensures Highest(highest, a) == Highest(highest, b)
  {
    if |a| > 0 {
      var n := |a|;
      var pa, pb := a[..n - 1], b[..n - 1];
      forall i | 0 <= i < n - 1 ensures pa[i].colId == pb[i].colId && pa[i].value == pb[i].value {
        assert pa[i] == a[i] && pb[i] == b[i];
      }
      HighestIgnoresStyles(highest, pa, pb);
      var h := Highest(highest, pa);
      assert a[n - 1].colId == b[n - 1].colId && a[n - 1].value == b[n - 1].value;
      assert Highest(highest, a) == Observe(h, a[n - 1]);
      assert Highest(highest, b) == Observe(h, b[n - 1]);
    }
  }

  // ---------------------------------------------------------------------------
  // Colours of the cells of one pass

  /** The column maximum's cell is painted in the column's own colour (when its lightness has three decimals). */
  lemma ColumnMaxCellGetsBaseShade(config: map<ColId, Options>, lib: ColorLib, cells: seq<HeatCell>,
                                   i: nat, base: Color, k: int)
    requires i < |cells|
    requires cells[i].value > 0.0
    requires forall j :: 0 <= j < |cells| && cells[j].colId == cells[i].colId ==> cells[j].value <= cells[i].value
    requires cells[i].colId in config && config[cells[i].colId].color == Some(base)
    requires lib.parseToHsla(base).l * 1000.0 == k as real
    ensures var c := lib.parseToHsla(base);
            var bg := lib.hsla(c.h, c.s, Finite(c.l), c.a);
            GetColor(config, Highest(map[], cells), lib, cells[i].colId, cells[i].value)
              == Success(ColorPair(Some(bg), Some(lib.readableColor(bg))))
  {
    var id := cells[i].colId;
    var highest := Highest(map[], cells);
    assert id in ColumnIds(cells);
    HighestFromEmpty(cells, id);
    assert highest[id] == cells[i].value;
    ShadeAtColumnMax(cells[i].value, lib.parseToHsla(base).l, k);
  }

  /** Of two cells of one column, the one with the smaller value gets the lighter (or the same) background. */
  lemma SameColumnShadesOrdered(cells: seq<HeatCell>, i: nat, j: nat, baseLightness: real)
    requires i < |cells| && j < |cells| && cells[i].colId == cells[j].colId
    requires cells[i].value <= cells[j].value && 0.0 < cells[j].value
    requires baseLightness <= 1.0
    ensures cells[i].colId in Highest(map[], cells)
    ensures var max := Some(Highest(map[], cells)[cells[i].colId]);
            && BackgroundLightness(cells[i].value, baseLightness, max).Finite?
            && BackgroundLightness(cells[j].value, baseLightness, max).Finite?
            && BackgroundLightness(cells[i].value, baseLightness, max).r
               >= BackgroundLightness(cells[j].value, baseLightness, max).r
  {
    var id := cells[i].colId;
    assert id in ColumnIds(cells);
    HighestFromEmpty(cells, id);
    ShadeMonotone(cells[i].value, cells[j].value, baseLightness, Highest(map[], cells)[id]);
  }

  /** A positive value's background lies between the column colour's (rounded) lightness and white. */
  lemma PositiveCellShadeInRange(cells: seq<HeatCell>, i: nat, baseLightness: real)
    requires i < |cells| && cells[i].value > 0.0
    requires 0.0 <= baseLightness <= 1.0
    ensures cells[i].colId in Highest(map[], cells)
    ensures var r := BackgroundLightness(cells[i].value, baseLightness, Some(Highest(map[], cells)[cells[i].colId]));
            r.Finite? && 1.0 - ToFixed3(1.0 - baseLightness) <= r.r <= 1.0
  {
    var id := cells[i].colId;
    assert id in ColumnIds(cells);
    HighestFromEmpty(cells, id);
    ShadeRange(cells[i].value, baseLightness, Highest(map[], cells)[id]);
  }

  /**
   * In a column without a positive value the maximum stays 0, so a negative
   * value divides by zero and its lightness is +Infinity.
   */
  lemma NonPositiveColumnShade(cells: seq<HeatCell>, i: nat, baseLightness: real)
    requires i < |cells| && cells[i].value < 0.0
    requires forall j :: 0 <= j < |cells| && cells[j].colId == cells[i].colId ==> cells[j].value <= 0.0
    requires baseLightness < 1.0
    ensures cells[i].colId in Highest(map[], cells)
    ensures BackgroundLightness(cells[i].value, baseLightness, Some(Highest(map[], cells)[cells[i].colId])) == PosInfinity
  {
    var id := cells[i].colId;
    assert id in ColumnIds(cells);
    NonPositiveColumnEndsAtZero(cells, id);
    ShadeOfZeroMaximum(cells[i].value, baseLightness);
  }

  // ---------------------------------------------------------------------------
  // The colouring pass

  /** The colours of each of the first `n` cells can be computed. */
  predicate ColorsUpTo(config: map<ColId, Options>, highest: map<ColId, real>, lib: ColorLib,
                       cells: seq<HeatCell>, n: nat)
    requires n <= |cells|
  {
    forall j :: 0 <= j < n ==> GetColor(config, highest, lib, cells[j].colId, cells[j].value).Success?
  }

  lemma ColorsUpToTail(config: map<ColId, Options>, highest: map<ColId, real>, lib: ColorLib,
                       cells: seq<HeatCell>, n: nat)
    requires 0 < n <= |cells|
    ensures ColorsUpTo(config, highest, lib, cells, n) <==>
              GetColor(config, highest, lib, cells[0].colId, cells[0].value).Success?
              && ColorsUpTo(config, highest, lib, cells[1..], n - 1)
  {
    assert forall j :: 0 <= j < n - 1 ==> cells[1..][j] == cells[j + 1];
  }

  /**
   * Cell i after the pass: restyled with its own colours when it and every
   * earlier cell got colours, and untouched when the pass stopped at or before it.
   */
  lemma {:induction false} PaintedCell(config: map<ColId, Options>, highest: map<ColId, real>, lib: ColorLib,
                                       cells: seq<HeatCell>, i: nat)
    requires i < |cells|
    ensures ColorsUpTo(config, highest, lib, cells, i + 1) ==>
              Painted(config, highest, lib, cells).cells[i] ==
              cells[i].(style := Restyle(cells[i].style, GetColor(config, highest, lib, cells[i].colId, cells[i].value).value))
    ensures !ColorsUpTo(config, highest, lib, cells, i + 1) ==>
              Painted(config, highest, lib, cells).cells[i] == cells[i]
  {
    ColorsUpToTail(config, highest, lib, cells, i + 1);
    if GetColor(config, highest, lib, cells[0].colId, cells[0].value).Success? && i > 0 {
      var tail := cells[1..];
      PaintedCell(config, highest, lib, tail, i - 1);
      PaintedFirst(config, highest, lib, cells);
      assert tail[i - 1] == cells[i];
    }
  }

  /** A pass changes styles only: every cell keeps its column id and its value. */
  lemma {:induction false} PaintedKeepsIdsAndValues(config: map<ColId, Options>, highest: map<ColId, real>,
                                                    lib: ColorLib, cells: seq<HeatCell>)
    ensures forall i :: 0 <= i < |cells| ==>
              && Painted(config, highest, lib, cells).cells[i].colId == cells[i].colId
              && Painted(config, highest, lib, cells).cells[i].value == cells[i].value
  {
    if |cells| > 0 && GetColor(config, highest, lib, cells[0].colId, cells[0].value).Success? {
      var tail := cells[1..];
      PaintedKeepsIdsAndValues(config, highest, lib, tail);
      var out := Painted(config, highest, lib, cells).cells;
      forall i | 1 <= i < |cells| ensures out[i].colId == cells[i].colId && out[i].value == cells[i].value {
        assert out[i] == Painted(config, highest, lib, tail).cells[i - 1];
        assert tail[i - 1] == cells[i];
      }
    }
  }

  /** A pass completes without error exactly when every cell's colours can be computed. */
  lemma {:induction false} PaintedSucceedsIffAllCells(config: map<ColId, Options>, highest: map<ColId, real>,
                                                      lib: ColorLib, cells: seq<HeatCell>)
    ensures Painted(config, highest, lib, cells).error.None? <==>
              forall i :: 0 <= i < |cells| ==> GetColor(config, highest, lib, cells[i].colId, cells[i].value).Success?
  {
    if |cells| > 0 && GetColor(config, highest, lib, cells[0].colId, cells[0].value).Success? {
      var tail := cells[1..];
      PaintedSucceedsIffAllCells(config, highest, lib, tail);
      assert forall i :: 1 <= i < |cells| ==> cells[i] == tail[i - 1];
    }
  }

  /** The error a pass reports is that of its first cell whose colours cannot be computed. */
  lemma {:induction false} PaintedStopsAtFirstError(config: map<ColId, Options>, highest: map<ColId, real>,
                                                    lib: ColorLib, cells: seq<HeatCell>)
    requires Painted(config, highest, lib, cells).error.Some?
    ensures exists k :: 0 <= k < |cells|
              && GetColor(config, highest, lib, cells[k].colId, cells[k].value)
                   == Failure(Painted(config, highest, lib, cells).error.value)
              && forall j :: 0 <= j < k ==> GetColor(config, highest, lib, cells[j].colId, cells[j].value).Success?
  {
    match GetColor(config, highest, lib, cells[0].colId, cells[0].value)
    case Failure(e) =>
      assert GetColor(config, highest, lib, cells[0].colId, cells[0].value) == Failure(e);
    case Success(pair) =>
      var tail := cells[1..];
      PaintedStopsAtFirstError(config, highest, lib, tail);
      var k :| 0 <= k < |tail|
              && GetColor(config, highest, lib, tail[k].colId, tail[k].value)
                   == Failure(Painted(config, highest, lib, tail).error.value)
              && forall j :: 0 <= j < k ==> GetColor(config, highest, lib, tail[j].colId, tail[j].value).Success?;
      assert tail[k] == cells[k + 1];
      forall j | 0 <= j < k + 1 ensures GetColor(config, highest, lib, cells[j].colId, cells[j].value).Success? {
        if j > 0 {
          assert cells[j] == tail[j - 1];
        }
      }
  }

  /** Colouring cells that were already coloured with the same dictionaries changes nothing. */
  lemma {:induction false} PaintedIdempotent(config: map<ColId, Options>, highest: map<ColId, real>, lib: ColorLib,
                                             cells: seq<HeatCell>)
    ensures Painted(config, highest, lib, Painted(config, highest, lib, cells).cells) == Painted(config, highest, lib, cells)
  {
    if |cells| > 0 {
      match GetColor(config, highest, lib, cells[0].colId, cells[0].value)
      case Failure(e) =>
      case Success(pair) =>
        var tail := cells[1..];
        var rest := Painted(config, highest, lib, tail);
        PaintedIdempotent(config, highest, lib, tail);
        var once := Painted(config, highest, lib, cells).cells;
        assert once[1..] == rest.cells;
    }
  }

  /**
   * A second pass over the same columns and the (now coloured) cells leaves
   * the options, the maxima and the styles exactly as the first pass left them.
   */
  lemma SecondPassChangesNothing(config: map<ColId, Options>, highest: map<ColId, real>, lib: ColorLib,
                                 columns: seq<HeatColumn>, cells: seq<HeatCell>)
    ensures var config1 := Configure(config, columns);
            var highest1 := Highest(highest, cells);
            var pass1 := Painted(config1, highest1, lib, cells);
            && Configure(config1, columns) == config1
            && Highest(highest1, pass1.cells) == highest1
            && Painted(config1, highest1, lib, pass1.cells) == pass1
  {
    var config1 := Configure(config, columns);
    var highest1 := Highest(highest, cells);
    var pass1 := Painted(config1, highest1, lib, cells);
    ConfigureIdempotent(config, columns);
    PaintedKeepsIdsAndValues(config1, highest1, lib, cells);
    HighestIgnoresStyles(highest1, pass1.cells, cells);
    HighestIdempotent(highest, cells);
    PaintedIdempotent(config1, highest1, lib, cells);
  }
}
