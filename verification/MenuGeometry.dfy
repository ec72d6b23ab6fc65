/** Where a page's rows are drawn, and hit-testing as the inverse of the landscape rotation. */
module MenuGeometry {
  import opened Wrappers
  import opened Framebuffer

  const MENU_X: nat := 1340
  const MENU_RIGHT_MARGIN: nat := 120
  const CONTENT_TOP: nat := 300
  const CONTENT_BOTTOM: nat := 1430
  const ROW_GAP: nat := 28
  const RAW_WIDTH: nat := 1600
  const RAW_HEIGHT: nat := 2560

  datatype Geometry = Geometry(x: nat, y: nat, width: nat, rowHeight: nat, rowGap: nat, itemCount: nat)

  /** Page titles with a fixed place for their one card. */
  predicate Viewer(title: string) {
    title == "Pixel Partitioner" || title == "Component Versions" || title == "Partition Information"
  }

  function RowHeight(count: nat): (h: nat)
    requires count > 0
    ensures 96 <= h <= 180
  {
    var usable, gaps := CONTENT_BOTTOM - CONTENT_TOP, ROW_GAP * (count - 1);
    var free := if usable > gaps then (usable - gaps) / count else 96;
    if free > 180 then 180 else if free < 96 then 96 else free
  }

  /** `tfb_ui_menu_geometry` for a page with `count` visible entries. */
  function Layout(title: string, count: nat): Option<Geometry> {
    var width := LOGICAL_WIDTH - MENU_X - MENU_RIGHT_MARGIN;
    if count == 0 then None
    else if title == "Pixel Partitioner" then Some(Geometry(MENU_X, 1235, width, 170, 0, count))
    else if title == "Component Versions" then Some(Geometry(MENU_X, 1360, width, 96, 0, count))
    else if title == "Partition Information" then Some(Geometry(MENU_X, 1320, width, 96, 0, count))
    else
      var usable, height := CONTENT_BOTTOM - CONTENT_TOP, RowHeight(count);
      var total := height * count + ROW_GAP * (count - 1);
      var y := CONTENT_TOP + if usable > total then (usable - total) / 2 else 0;
      Some(Geometry(MENU_X, y, width, height, ROW_GAP, count))
  }

  function RowY(g: Geometry, index: nat): nat {
    g.y + index * (g.rowHeight + g.rowGap)
  }

  /** The raw pixels on which card `index` is drawn. */
  function Card(g: Geometry, index: nat): (int, int) -> bool {
    Rotated(g.x, RowY(g, index), g.width, g.rowHeight)
  }

  /** Later rows start below earlier ones. */
  lemma RowsApart(g: Geometry, i: nat, j: nat)
    requires i < j
    ensures RowY(g, i) + g.rowHeight <= RowY(g, j)
  {
    LineFits(g.rowHeight + g.rowGap, i, j);
  }

  lemma Centred(usable: nat, height: nat, count: nat)
    requires count > 0
    ensures height <= (usable - ROW_GAP * (count - 1)) / count <==> height * count + ROW_GAP * (count - 1) <= usable
  {
    var room := usable - ROW_GAP * (count - 1);
    var q, r := room / count, room % count;
    assert room == q * count + r;
    if height <= q {
      assert height * count <= q * count;
    } else {
      assert height * count >= (q + 1) * count;
    }
  }

  /** The rows of an ordinary page stay inside the content band exactly up to nine visible entries. */
  lemma RowsFitIff(title: string, count: nat)
    requires count > 0 && !Viewer(title)
    ensures
      var g := Layout(title, count).value;
      300 <= RowY(g, 0) && (RowY(g, count - 1) + g.rowHeight <= 1430 <==> count <= 9)
  {
    hide RowHeight;
    var g, usable := Layout(title, count).value, CONTENT_BOTTOM - CONTENT_TOP;
    var total := g.rowHeight * count + ROW_GAP * (count - 1);
    RowsTotal(g.rowHeight, count);
    HeightFits(count);
  }

  /**
   * The column of cards, 1100 wide from 1340 on. On an ordinary page they are 28 apart and 96 to 180 high: up to nine
   * are as high as fits the band from 300 to 1430 and stand in its middle, more start at its top with the least height.
   * The viewers' one card stands near the bottom, with no gap.
   */
  lemma ColumnIs(title: string, count: nat)
    requires count > 0
    ensures Layout(title, count).Some?
    ensures
      var g := Layout(title, count).value;
      var above, below := g.y - 300, 1430 - (RowY(g, count - 1) + g.rowHeight);
      && g.x == 1340 && g.width == 1100 && g.itemCount == count
      && if title == "Pixel Partitioner" then (g.y, g.rowHeight, g.rowGap) == (1235, 170, 0)
         else if title == "Component Versions" then (g.y, g.rowHeight, g.rowGap) == (1360, 96, 0)
         else if title == "Partition Information" then (g.y, g.rowHeight, g.rowGap) == (1320, 96, 0)
         else if count > 9 then (g.y, g.rowHeight, g.rowGap) == (300, 96, 28)
         else g.rowGap == 28 && 96 <= g.rowHeight <= 180 && 0 <= below - above <= 1 && 0 <= above
              && (g.rowHeight == 180 || (g.rowHeight + 1) * count + 28 * (count - 1) > 1130)
  {
    hide RowHeight;
    var height := RowHeight(count);
    RowsTotal(height, count);
    HeightFits(count);
    HeightIs(count);
  }

  /** The row height is the largest one between its bounds for which the column fits the band. */
  lemma HeightIs(count: nat)
    requires count > 0
    ensures
      var height := RowHeight(count);
      if count > 9 then height == 96
      else height == 180 || (height + 1) * count + ROW_GAP * (count - 1) > CONTENT_BOTTOM - CONTENT_TOP
  {
    var usable, height := CONTENT_BOTTOM - CONTENT_TOP, RowHeight(count);
    if count <= 9 {
      Centred(usable, height + 1, count);
      Centred(usable, 96, count);
    } else {
      TallColumn(96, count);
      if usable > ROW_GAP * (count - 1) {
        Centred(usable, 97, count);
        TallColumn(97, count);
      }
    }
  }

  /** The last row ends a whole column of rows and gaps below the first row's top. */
  lemma RowsTotal(height: nat, count: nat)
    requires count > 0
    ensures (count - 1) * (height + ROW_GAP) + height == height * count + ROW_GAP * (count - 1)
  {}

  /** The clamped row height makes a column that fits the band exactly up to nine rows. */
  lemma HeightFits(count: nat)
    requires count > 0
    ensures RowHeight(count) * count + ROW_GAP * (count - 1) <= CONTENT_BOTTOM - CONTENT_TOP <==> count <= 9
  {
    var usable, height := CONTENT_BOTTOM - CONTENT_TOP, RowHeight(count);
    if count <= 9 {
      Centred(usable, height, count);
      Centred(usable, 96, count);
    } else {
      TallColumn(height, count);
    }
  }

  lemma TallColumn(height: nat, count: nat)
    requires height >= 96 && count > 9
    ensures height * count >= 96 * count
  {}

  /** The first row from `index` on that contains the logical line `ly`. */
  function RowFrom(g: Geometry, ly: int, index: nat): int
    decreases g.itemCount - index
  {
    if index >= g.itemCount then -1
    else if RowY(g, index) <= ly < RowY(g, index) + g.rowHeight then index
    else RowFrom(g, ly, index + 1)
  }

  /** The row a raw point of the panel touches, or -1. */
  function HitRow(g: Geometry, rawX: int, rawY: int): int {
    var lx, ly := LOGICAL_WIDTH - 1 - rawY, rawX;
    if !(0 <= rawX < RAW_WIDTH && 0 <= rawY < RAW_HEIGHT) || lx < g.x || lx >= g.x + g.width then -1
    else RowFrom(g, ly, 0)
  }

  lemma {:induction false} RowFromIff(g: Geometry, ly: int, index: nat, row: int)
    ensures RowFrom(g, ly, index) == row && row >= 0 <==>
            index <= row < g.itemCount && RowY(g, row) <= ly < RowY(g, row) + g.rowHeight
    decreases g.itemCount - index
  {
    hide RowY;
    if index < g.itemCount {
      RowFromIff(g, ly, index + 1, row);
      if row > index {
        RowsApart(g, index, row);
      }
    }
  }

  /** Hit-testing inverts the drawing: a raw point hits row i exactly when card i is drawn on it. */
  lemma HitIff(g: Geometry, rawX: int, rawY: int, row: int)
    ensures HitRow(g, rawX, rawY) == row && row >= 0 <==> 0 <= row < g.itemCount && Card(g, row)(rawX, rawY)
  {
    hide RowY;
    RowFromIff(g, rawX, 0, row);
  }

  /** No raw point lies on two cards. */
  lemma CardsDisjoint(g: Geometry, i: nat, j: nat, rawX: int, rawY: int)
    requires i < g.itemCount && j < g.itemCount && Card(g, i)(rawX, rawY) && Card(g, j)(rawX, rawY)
    ensures i == j
  {
    HitIff(g, rawX, rawY, i);
    HitIff(g, rawX, rawY, j);
  }

  /** Outside every card the test answers -1, and a hit is always a row that exists. */
  lemma HitRange(g: Geometry, rawX: int, rawY: int)
    ensures -1 <= HitRow(g, rawX, rawY) < g.itemCount
  {
    RowFromRange(g, rawX, 0);
  }

  lemma {:induction false} RowFromRange(g: Geometry, ly: int, index: nat)
    ensures -1 <= RowFrom(g, ly, index) < g.itemCount
    decreases g.itemCount - index
  {
    if index < g.itemCount {
      RowFromRange(g, ly, index + 1);
    }
  }

  /** `tfb_menu_touch_row`: `shown` stands for an active menu on the supported landscape panel. */
  function TouchRow(title: string, count: nat, shown: bool, rawX: int, rawY: int): (row: int)
  {
    match Layout(title, count)
    case None => -1
    case Some(g) => if shown then HitRow(g, rawX, rawY) else -1
  }

  /** While the menu is shown a raw point touches row i exactly when card i is drawn on it; otherwise none. */
  lemma TouchRowIff(title: string, count: nat, shown: bool, rawX: int, rawY: int, row: nat)
    ensures TouchRow(title, count, shown, rawX, rawY) == row <==>
      shown && row < count && Layout(title, count).Some? && Card(Layout(title, count).value, row)(rawX, rawY)
  {
    hide HitRow, Card, RowHeight;
    if Layout(title, count).Some? {
      HitIff(Layout(title, count).value, rawX, rawY, row);
    }
  }

  method FindTouchRow(title: string, count: nat, shown: bool, rawX: int, rawY: int) returns (row: int)
    ensures row == TouchRow(title, count, shown, rawX, rawY)
  {
    hide RowY;
    if !shown || rawX < 0 || rawX >= RAW_WIDTH || rawY < 0 || rawY >= RAW_HEIGHT {
      return -1;
    }
    var layout := Layout(title, count);
    if layout.None? {
      return -1;
    }
    var g := layout.value;
    var logicalX := LOGICAL_WIDTH - 1 - rawY * LOGICAL_WIDTH / RAW_HEIGHT;
    var logicalY := rawX * LOGICAL_HEIGHT / RAW_WIDTH;
    if logicalX < g.x || logicalX >= g.x + g.width {
      return -1;
    }
    var index := 0;
    while index < g.itemCount
      invariant 0 <= index <= g.itemCount
      invariant RowFrom(g, logicalY, 0) == RowFrom(g, logicalY, index)
    {
      var rowY := RowY(g, index);
      if logicalY >= rowY && logicalY < rowY + g.rowHeight {
        return index;
      }
      index := index + 1;
    }
    row := -1;
  }
}
