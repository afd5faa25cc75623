/** The data logic of the BOM table page: the sticky left offset of a frozen
    column, which columns are frozen, the exported CSV text, and, per row,
    the range of the visible supplier rates with the heatmap and the
    percentage difference against the estimated rate. */
module TablePage {

  import opened Wrappers
  import opened Seqs
  import opened Strings
  import opened Cells
  import opened TableConstants
  import opened TableEngine
  import opened Colors

  // ----- sticky offsets -----

  /** The width a column takes: the four fixed columns have their own
      widths, every other column the supplier width. */
  function WidthOf(col: string): (w: nat)
    ensures w > 0
  {
    if col == "Item Code" then ItemCodeWidth
    else if col == "Material" then MaterialWidth
    else if col == "Quantity" then QuantityWidth
    else if col == "Estimated Rate" then EstimatedRateWidth
    else SupplierWidth
  }

  /** The total width of a run of columns. */
  function SumWidths(cols: seq<string>): nat
    decreases |cols|
  {
    if cols == [] then 0 else SumWidths(cols[..|cols| - 1]) + WidthOf(cols[|cols| - 1])
  }

  /** `calculateLeftOffset(col)`: the summed widths of the visible columns
      before `col`; 0 for the first visible column and for a column that is
      not visible. The `px` suffix is left off. */
  method LeftOffset(hidden: seq<string>, col: string) returns (offset: nat)
    ensures var visible := VisibleColumns(BomColumns, hidden);
            var idx := IndexOf(visible, col);
            offset == if idx == -1 then 0 else SumWidths(visible[..idx])
    ensures col !in VisibleColumns(BomColumns, hidden) ==> offset == 0
  {
    var visible := VisibleColumns(BomColumns, hidden);
    offset := OffsetIn(visible, col);
  }

  /** The loop of `calculateLeftOffset` over the visible columns. */
  method OffsetIn(visible: seq<string>, col: string) returns (offset: nat)
    ensures var idx := IndexOf(visible, col);
            offset == if idx == -1 then 0 else SumWidths(visible[..idx])
  {
    var idx := IndexOf(visible, col);
    offset := 0;
    var i := 0;
    while i < idx
      invariant 0 <= i <= (if idx < 0 then 0 else idx)
      invariant offset == SumWidths(visible[..i])
    {
      offset := offset + WidthOf(visible[i]);
      assert visible[..i + 1][..i] == visible[..i];
      i := i + 1;
    }
  }

  /** Widths are positive, so offsets strictly increase along the visible
      columns: frozen columns never overlap. */
  lemma {:induction false} OffsetsIncrease(visible: seq<string>, i: int, j: int)
    requires 0 <= i < j <= |visible|
    ensures SumWidths(visible[..i]) < SumWidths(visible[..j])
    decreases j
  {
    assert visible[..j][..j - 1] == visible[..j - 1];
    if i < j - 1 {
      OffsetsIncrease(visible, i, j - 1);
    }
  }

  // ----- frozen columns -----

  /** `isFrozen`: the column's place in the layout is at most `frozenUntil`. */
  predicate IsFrozen(col: string, frozenUntil: int) {
    IndexOf(BomColumns, col) <= frozenUntil
  }

  /** The frozen columns are a prefix of the layout, and -1 freezes none of
      them. */
  lemma FrozenIsPrefix(frozenUntil: int, i: int, j: int)
    requires 0 <= i <= j < |BomColumns|
    ensures IsFrozen(BomColumns[j], frozenUntil) ==> IsFrozen(BomColumns[i], frozenUntil)
    ensures IsFrozen(BomColumns[i], frozenUntil) <==> i <= frozenUntil
    ensures !IsFrozen(BomColumns[i], -1)
  {
    BomIndexOf(i);
    BomIndexOf(j);
  }

  /** A name outside the layout has index -1 and so counts as frozen even
      when nothing is (only layout columns are ever shown). */
  lemma UnknownColumnFrozen(col: string, frozenUntil: int)
    requires col !in BomColumns && frozenUntil >= -1
    ensures IsFrozen(col, frozenUntil)
  {
  }

  /** After a freeze click on a layout column that froze, exactly the columns
      up to and including it are frozen. */
  lemma FreezeFreezesPrefix(frozenUntil: int, col: string, c: string)
    requires col in BomColumns && c in BomColumns
    requires HandleFreeze(BomColumns, frozenUntil, col) != -1
    ensures IsFrozen(c, HandleFreeze(BomColumns, frozenUntil, col))
        <==> IndexOf(BomColumns, c) <= IndexOf(BomColumns, col)
  {
  }

  // ----- export -----

  /** The cells of one row under the given columns, as `join` renders them. */
  function CellTexts(row: Row, cols: seq<string>): (r: seq<string>)
    ensures |r| == |cols|
  {
    seq(|cols|, i requires 0 <= i < |cols| => JoinText(Get(row, cols[i])))
  }

  /** One exported data line: the row's visible cells joined by commas. */
  function ExportLine(row: Row, cols: seq<string>): string {
    Join(CellTexts(row, cols), ',')
  }

  function ExportLines(rows: seq<Row>, cols: seq<string>): (r: seq<string>)
    ensures |r| == |rows|
  {
    seq(|rows|, i requires 0 <= i < |rows| => ExportLine(rows[i], cols))
  }

  /** The payload of the exported file (after the `data:` prefix): the
      header line, a newline, then one line per shown row. */
  function ExportText(cols: seq<string>, rows: seq<Row>): string {
    Join(cols, ',') + "\n" + Join(ExportLines(rows, cols), '\n')
  }

  /** No column name and no cell contains a comma or a newline. */
  predicate Plain(cols: seq<string>, rows: seq<Row>) {
    && (forall k :: 0 <= k < |cols| ==> ',' !in cols[k] && '\n' !in cols[k])
    && (forall i, k :: 0 <= i < |rows| && 0 <= k < |cols| ==>
          ',' !in CellTexts(rows[i], cols)[k] && '\n' !in CellTexts(rows[i], cols)[k])
  }

  /** Reading the export back: split at newlines it gives the header and one
      line per row (a lone empty line when there are no rows), the header
      splits into the columns, and each line into that row's cells, as long
      as nothing contains a comma or a newline. */
  lemma ExportRoundTrip(cols: seq<string>, rows: seq<Row>)
    requires |cols| >= 1 && Plain(cols, rows)
    ensures Split(ExportText(cols, rows), '\n')
         == [Join(cols, ',')] + (if rows == [] then [""] else ExportLines(rows, cols))
    ensures Split(Join(cols, ','), ',') == cols
    ensures forall i :: 0 <= i < |rows| ==> Split(ExportLines(rows, cols)[i], ',') == CellTexts(rows[i], cols)
  {
    SplitJoin(cols, ',');
    JoinAvoids(cols, ',', '\n');
    LinesRoundTrip(cols, rows);
    SplitLines(Join(cols, ','), ExportLines(rows, cols));
  }

  /** A newline-free header, a newline, and newline-free lines joined by
      newlines split back into the header and the lines; no lines read back
      as one empty line. */
  lemma SplitLines(header: string, lines: seq<string>)
    requires '\n' !in header
    requires forall i :: 0 <= i < |lines| ==> '\n' !in lines[i]
    ensures Split(header + "\n" + Join(lines, '\n'), '\n') == [header] + (if lines == [] then [""] else lines)
  {
    var all := [header] + (if lines == [] then [""] else lines);
    if lines == [] {
      assert all == [header, ""];
      assert Join(all, '\n') == header + "\n" + "";
    } else {
      JoinCons(header, lines, '\n');
      forall k | 1 <= k < |all|
        ensures '\n' !in all[k]
      {
        assert all[k] == lines[k - 1];
      }
    }
    SplitJoin(all, '\n');
  }

  /** Each exported line splits back into its row's cells and holds no
      newline. */
  lemma LinesRoundTrip(cols: seq<string>, rows: seq<Row>)
    requires |cols| >= 1 && Plain(cols, rows)
    ensures forall i :: 0 <= i < |rows| ==>
              && Split(ExportLines(rows, cols)[i], ',') == CellTexts(rows[i], cols)
              && '\n' !in ExportLines(rows, cols)[i]
  {
    var lines := ExportLines(rows, cols);
    forall i | 0 <= i < |rows|
      ensures Split(lines[i], ',') == CellTexts(rows[i], cols)
      ensures '\n' !in lines[i]
    {
      SplitJoin(CellTexts(rows[i], cols), ',');
      JoinAvoids(CellTexts(rows[i], cols), ',', '\n');
    }
  }

  /** Cells are not quoted: a comma inside a value splits it in two when the
      line is read back. */
  lemma CommaBreaksRoundTrip()
    ensures var row := map["Material" := Str("a,b")];
            && CellTexts(row, ["Material"]) == ["a,b"]
            && Split(ExportLine(row, ["Material"]), ',') == ["a", "b"]
  {
    var row := map["Material" := Str("a,b")];
    var s := "a,b";
    assert Get(row, "Material") == Some(Str(s));
    assert CellTexts(row, ["Material"]) == [s];
    assert ExportLine(row, ["Material"]) == s;
    assert IndexOf(s, ',') == 1 by {
      assert s[0] != ',' && s[1] == ',';
    }
    assert s[..1] == "a" && s[2..] == "b";
    assert IndexOf("b", ',') == -1;
  }

  // ----- supplier rates of a row -----

  /** The numeric values of `row` under `cols`, in column order, skipping
      those `Number` turns into NaN. */
  function RatesOf(row: Row, cols: seq<string>): (r: seq<real>)
    ensures |r| <= |cols|
    ensures forall x :: x in r ==> exists k :: 0 <= k < |cols| && NumberOf(Get(row, cols[k])) == Some(x)
    ensures forall k :: 0 <= k < |cols| && NumberOf(Get(row, cols[k])).Some? ==> NumberOf(Get(row, cols[k])).value in r
    decreases |cols|
  {
    if cols == [] then []
    else
      var rest := RatesOf(row, cols[1..]);
      var v := NumberOf(Get(row, cols[0]));
      assert forall k :: 1 <= k < |cols| ==> cols[k] == cols[1..][k - 1];
      if v.Some? then [v.value] + rest else rest
  }

  /** The rates the row's heatmap is scaled to: the visible supplier
      columns' numeric values. */
  function SupplierRates(row: Row, hidden: seq<string>): seq<real> {
    RatesOf(row, VisibleColumns(SupplierColumns, hidden))
  }

  function Min(s: seq<real>): (m: real)
    requires |s| >= 1
    ensures m in s && forall x :: x in s ==> m <= x
    decreases |s|
  {
    if |s| == 1 then s[0]
    else
      var m := Min(s[1..]);
      assert forall x :: x in s ==> x == s[0] || x in s[1..];
      if s[0] <= m then s[0] else m
  }

  function Max(s: seq<real>): (m: real)
    requires |s| >= 1
    ensures m in s && forall x :: x in s ==> x <= m
    decreases |s|
  {
    if |s| == 1 then s[0]
    else
      var m := Max(s[1..]);
      assert forall x :: x in s ==> x == s[0] || x in s[1..];
      if s[0] >= m then s[0] else m
  }

  datatype Range = Range(lo: real, hi: real)

  /** `Math.min(...rates)` and `Math.max(...rates)`; `None` when there are
      no rates (the source then gets Infinity and -Infinity). */
  function RateRange(rates: seq<real>): (r: Option<Range>)
    ensures r.None? <==> rates == []
    ensures r.Some? ==> r.value.lo in rates && r.value.hi in rates && r.value.lo <= r.value.hi
    ensures r.Some? ==> forall x :: x in rates ==> r.value.lo <= x <= r.value.hi
  {
    if rates == [] then None else Some(Range(Min(rates), Max(rates)))
  }

  /** The heatmap background for a value against a row's rates: a
      single-point range gives the neutral colour whatever the value;
      otherwise a number is placed in the range, and a missing range or a
      value that is not a number gives NaN channels, which is no colour
      (`None`). */
  function HeatIn(rates: seq<real>, v: Option<real>): Option<Rgba> {
    var range := RateRange(rates);
    if range.None? then None
    else if range.value.lo == range.value.hi then Some(Neutral)
    else if v.None? then None
    else Some(HeatmapColor(v.value, range.value.lo, range.value.hi))
  }

  /** The background of a cell: only supplier columns get one, scaled to
      the row's visible supplier rates. */
  function CellHeat(row: Row, hidden: seq<string>, col: string): Option<Rgba> {
    if col !in SupplierColumns then None
    else HeatIn(SupplierRates(row, hidden), NumberOf(Get(row, col)))
  }

  /** A shown supplier cell holding a number is coloured: neutral when the
      row's rates are all equal, else its place in the range. */
  lemma CellHeatOfNumber(row: Row, hidden: seq<string>, col: string)
    requires col in SupplierColumns && col !in hidden
    requires NumberOf(Get(row, col)).Some?
    ensures var rates := SupplierRates(row, hidden);
            && rates != []
            && CellHeat(row, hidden, col)
               == if Min(rates) == Max(rates) then Some(Neutral)
                  else Some(HeatmapColor(NumberOf(Get(row, col)).value, Min(rates), Max(rates)))
  {
    ShownRateCounts(row, hidden, col);
  }

  /** Against rates that are not all equal, the cheapest rate is shown green
      and the dearest red. */
  lemma CheapestGreenDearestRed(rates: seq<real>)
    requires rates != [] && Min(rates) < Max(rates)
    ensures HeatIn(rates, Some(Min(rates))) == Some(Green)
    ensures HeatIn(rates, Some(Max(rates))) == Some(Red)
  {
    HeatmapAnchors(Min(rates), Max(rates));
  }

  /** The number in a shown supplier cell is one of the row's rates. */
  lemma ShownRateCounts(row: Row, hidden: seq<string>, col: string)
    requires col in SupplierColumns && col !in hidden
    requires NumberOf(Get(row, col)).Some?
    ensures NumberOf(Get(row, col)).value in SupplierRates(row, hidden)
  {
    var visible := VisibleColumns(SupplierColumns, hidden);
    assert col in visible;
    var k :| 0 <= k < |visible| && visible[k] == col;
  }

  /** An empty supplier quote (`null`) is read as rate 0: it joins the
      row's rates and, when the other quotes are not negative and not all
      equal, it is the row's minimum and is coloured green. */
  lemma EmptyQuoteIsZeroRate(row: Row, hidden: seq<string>, col: string)
    requires col in SupplierColumns && col !in hidden
    requires Get(row, col) == Some(Null)
    ensures var rates := SupplierRates(row, hidden);
            && 0.0 in rates
            && ((forall x :: x in rates ==> 0.0 <= x) ==> Min(rates) == 0.0)
            && ((forall x :: x in rates ==> 0.0 <= x) && Min(rates) < Max(rates) ==> CellHeat(row, hidden, col) == Some(Green))
  {
    ShownRateCounts(row, hidden, col);
    var rates := SupplierRates(row, hidden);
    if (forall x :: x in rates ==> 0.0 <= x) && Min(rates) < Max(rates) {
      HeatmapAnchors(Min(rates), Max(rates));
    }
  }

  // ----- percentage difference -----

  /** The label under a supplier cell: none, `NaN%`, or a percentage. */
  datatype Diff = NoDiff | NaNDiff | Diff(p: real)

  /** The difference of a supplier rate from the estimated rate, in percent
      of the estimate. Produced only when the estimate is a non-zero number
      (`estRate && estRate !== 0`); a supplier value that is not a number
      then gives NaN. */
  function PercentDiff(value: Option<Value>, est: Option<Value>): (d: Diff)
    ensures d != NoDiff <==> NumberOf(est).Some? && NumberOf(est).value != 0.0
    ensures d == NaNDiff <==> d != NoDiff && NumberOf(value).None?
    ensures d.Diff? ==> NumberOf(value).Some?
                        && NumberOf(value).value == NumberOf(est).value + NumberOf(est).value * d.p / 100.0
  {
    var e := NumberOf(est);
    if e.None? || e.value == 0.0 then NoDiff
    else
      var v := NumberOf(value);
      if v.None? then NaNDiff
      else
        var q := (v.value - e.value) / e.value;
        var p := q * 100.0;
        assert q * e.value == v.value - e.value;
        assert e.value * p / 100.0 == q * e.value;
        assert e.value + e.value * p / 100.0 == v.value;
        Diff(p)
  }

  /** The label's colour; a NaN difference compares false both ways and is muted. */
  function DiffColor(d: Diff): Option<Hue> {
    match d
    case NoDiff => None
    case NaNDiff => Some(MutedHue)
    case Diff(p) => Some(PercentageColor(p))
  }

  /** Against a positive estimate a dearer supplier is shown red, a cheaper
      one green and an equal one muted; a negative estimate swaps red and
      green. */
  lemma DiffColorMeaning(v: real, text: string, est: real, etext: string)
    requires est != 0.0
    ensures var c := DiffColor(PercentDiff(Some(Num(v, text)), Some(Num(est, etext))));
            && (est > 0.0 ==> (c == Some(RedHue) <==> v > est) && (c == Some(GreenHue) <==> v < est))
            && (est < 0.0 ==> (c == Some(RedHue) <==> v < est) && (c == Some(GreenHue) <==> v > est))
            && (c == Some(MutedHue) <==> v == est)
  {
    var p := (v - est) / est * 100.0;
    var q := (v - est) / est;
    assert q * est == v - est;
    assert p > 0.0 <==> q > 0.0;
    assert p < 0.0 <==> q < 0.0;
    if est > 0.0 {
      assert q > 0.0 <==> v - est > 0.0;
      assert q < 0.0 <==> v - est < 0.0;
    } else {
      assert q > 0.0 <==> v - est < 0.0;
      assert q < 0.0 <==> v - est > 0.0;
    }
  }
}
