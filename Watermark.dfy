/**
 * The watermark endpoint: the options read from the form and the positions at which
 * the text is drawn on each page, either once at the centre or six times
 * on a grid of two columns and three rows. The font metrics of the text
 * (its width and height at the chosen size) are parameters.
 */
module Watermark {
  import opened JsText
  import opened Layout
  import opened WatermarkColor

  /** The form fields the endpoint reads; None when the field was not sent. */
  datatype WatermarkForm = WatermarkForm(
    text: Option<string>,
    color: Option<string>,
    fontSize: Option<string>,
    diagonal: Option<string>,
    repeat: Option<string>)

  /** The options after defaulting; a font size of None stands for NaN. */
  datatype Options = Options(text: string, color: string, fontSize: Option<int>, diagonal: bool, repeat: bool)

  function ReadOptions(form: WatermarkForm): Options
  {
    Options(
      if Truthy(form.text) then form.text.value else "CONFIDENTIAL",
      if Truthy(form.color) then form.color.value else "#FF0000",
      ParseInt(if Truthy(form.fontSize) then form.fontSize.value else "50", 10),
      form.diagonal == Some("true"),
      form.repeat == Some("true"))
  }

  /** The form with nothing filled in. */
  const EmptyForm := WatermarkForm(None, None, None, None, None)

  /** Unset and empty fields take the defaults: red "CONFIDENTIAL" at size 50, once, upright. */
  lemma DefaultOptions(form: WatermarkForm)
    requires !Truthy(form.text) && !Truthy(form.color) && !Truthy(form.fontSize)
    requires form.diagonal != Some("true") && form.repeat != Some("true")
    ensures ReadOptions(form) == Options("CONFIDENTIAL", "#FF0000", Some(50), false, false)
  {
    assert "50" == NatToString(50);
    ParseIntNatToString(50, "");
    assert NatToString(50) + "" == "50";
  }

  /** The font size is the leading number of the field: "12pt" is 12. */
  lemma FontSizePrefix(n: nat, unit: string)
    requires unit == [] || !IsDecimalDigit(unit[0])
    ensures ReadOptions(EmptyForm.(fontSize := Some(NatToString(n) + unit))).fontSize == Some(n)
  {
    ParseIntNatToString(n, unit);
  }

  // ---------------------------------------------------------------------
  // Placement grid

  /** One drawText call: the anchor of the text and its rotation in degrees. */
  datatype Draw = Draw(x: real, y: real, angle: int)

  /**
   * The draw in row `row` and column `col` of the repeated pattern: the page
   * is cut into two columns of width w/2 and three rows of height h/3, and the
   * text is centred on the cell, or anchored at its centre and turned 45 degrees.
   */
  function CellDraw(row: nat, col: nat, page: PageSize, textWidth: real, textHeight: real, diagonal: bool): Draw
  {
    var spacingX := page.width / 2.0;
    var spacingY := page.height / 3.0;
    var x := col as real * spacingX + spacingX / 2.0 - textWidth / 2.0;
    var y := row as real * spacingY + spacingY / 2.0 - textHeight / 2.0;
    if diagonal then Draw(x + textWidth / 2.0, y + textHeight / 2.0, 45) else Draw(x, y, 0)
  }

  /** The draw of a single watermark: centred on the page, or anchored at its centre and turned. */
  function SingleDraw(page: PageSize, textWidth: real, textHeight: real, diagonal: bool): Draw
  {
    if diagonal then Draw(page.width / 2.0, page.height / 2.0, 45)
    else Draw(page.width / 2.0 - textWidth / 2.0, page.height / 2.0 - textHeight / 2.0, 0)
  }

  /** The draws on one page, in the order the loops make them: row by row, left column first. */
  function PageDraws(page: PageSize, textWidth: real, textHeight: real, repeat: bool, diagonal: bool): seq<Draw>
  {
    if repeat then seq(6, k requires 0 <= k < 6 => CellDraw(k / 2, k % 2, page, textWidth, textHeight, diagonal))
    else [SingleDraw(page, textWidth, textHeight, diagonal)]
  }

  /** The point a draw centres the text on: the anchor itself when turned, else the middle of the text box. */
  function Centre(d: Draw, textWidth: real, textHeight: real): (real, real)
  {
    if d.angle == 45 then (d.x, d.y) else (d.x + textWidth / 2.0, d.y + textHeight / 2.0)
  }

  /** Each cell's draw is centred on the middle of its cell, turned exactly when diagonal is set. */
  lemma CellCentre(row: nat, col: nat, page: PageSize, textWidth: real, textHeight: real, diagonal: bool)
    ensures var d := CellDraw(row, col, page, textWidth, textHeight, diagonal);
            && d.angle == (if diagonal then 45 else 0)
            && Centre(d, textWidth, textHeight)
               == ((2 * col + 1) as real * page.width / 4.0, (2 * row + 1) as real * page.height / 6.0)
  {
    var c, r := col as real, row as real;
    assert (2 * col + 1) as real == 2.0 * c + 1.0 && (2 * row + 1) as real == 2.0 * r + 1.0;
    assert (2.0 * c + 1.0) * page.width / 4.0 == c * (page.width / 2.0) + page.width / 4.0;
    assert (2.0 * r + 1.0) * page.height / 6.0 == r * (page.height / 3.0) + page.height / 6.0;
    var d := CellDraw(row, col, page, textWidth, textHeight, diagonal);
    var x := c * (page.width / 2.0) + page.width / 2.0 / 2.0 - textWidth / 2.0;
    var y := r * (page.height / 3.0) + page.height / 3.0 / 2.0 - textHeight / 2.0;
    if diagonal {
      assert d == Draw(x + textWidth / 2.0, y + textHeight / 2.0, 45);
    } else {
      assert d == Draw(x, y, 0);
    }
    assert Centre(d, textWidth, textHeight) == (x + textWidth / 2.0, y + textHeight / 2.0);
    assert x + textWidth / 2.0 == (2 * col + 1) as real * page.width / 4.0;
    assert y + textHeight / 2.0 == (2 * row + 1) as real * page.height / 6.0;
  }

  /**
   * With repeat set there are six draws, one per cell in row-major order;
   * each is centred on its cell of the 2 x 3 grid, with angle 45 exactly
   * when diagonal is set.
   */
  lemma RepeatedGrid(page: PageSize, textWidth: real, textHeight: real, diagonal: bool, row: nat, col: nat)
    requires row < 3 && col < 2
    ensures var ds := PageDraws(page, textWidth, textHeight, true, diagonal);
            && |ds| == 6
            && ds[2 * row + col] == CellDraw(row, col, page, textWidth, textHeight, diagonal)
            && ds[2 * row + col].angle == (if diagonal then 45 else 0)
            && Centre(ds[2 * row + col], textWidth, textHeight)
               == ((2 * col + 1) as real * page.width / 4.0, (2 * row + 1) as real * page.height / 6.0)
  {
    var k := 2 * row + col;
    assert k / 2 == row && k % 2 == col;
    CellCentre(row, col, page, textWidth, textHeight, diagonal);
  }

  /** Without repeat there is one draw, centred on the page. */
  lemma SinglePlacement(page: PageSize, textWidth: real, textHeight: real, diagonal: bool)
    ensures var ds := PageDraws(page, textWidth, textHeight, false, diagonal);
            && |ds| == 1
            && ds[0].angle == (if diagonal then 45 else 0)
            && Centre(ds[0], textWidth, textHeight) == (page.width / 2.0, page.height / 2.0)
  {
  }

  /**
   * Every cell centre lies inside the page, and the k-th and the (5-k)-th
   * mirror each other through the page centre.
   */
  lemma GridInsidePage(page: PageSize, textWidth: real, textHeight: real, diagonal: bool, k: nat)
    requires page.width > 0.0 && page.height > 0.0 && k < 6
    ensures var ds := PageDraws(page, textWidth, textHeight, true, diagonal);
            var c := Centre(ds[k], textWidth, textHeight);
            var m := Centre(ds[5 - k], textWidth, textHeight);
            && 0.0 < c.0 < page.width && 0.0 < c.1 < page.height
            && c.0 + m.0 == page.width && c.1 + m.1 == page.height
  {
    var row, col := k / 2, k % 2;
    assert 5 - k == 2 * (2 - row) + (1 - col);
    RepeatedGrid(page, textWidth, textHeight, diagonal, row, col);
    RepeatedGrid(page, textWidth, textHeight, diagonal, 2 - row, 1 - col);
  }

  /** Turning the text moves each anchor from the corner of the text box to its centre, nothing else. */
  lemma DiagonalShiftsAnchor(page: PageSize, textWidth: real, textHeight: real, repeat: bool)
    ensures var flat := PageDraws(page, textWidth, textHeight, repeat, false);
            var turned := PageDraws(page, textWidth, textHeight, repeat, true);
            && |flat| == |turned|
            && forall k :: 0 <= k < |flat| ==>
                 turned[k] == Draw(flat[k].x + textWidth / 2.0, flat[k].y + textHeight / 2.0, 45)
  {
  }

  /** The draw the inner loop makes for row `row` and column `col` is that cell's draw, at index 2 row + col. */
  lemma LoopCell(row: nat, col: nat, page: PageSize, textWidth: real, textHeight: real, diagonal: bool,
                 x: real, y: real, d: Draw)
    requires col < 2
    requires x == col as real * (page.width / 2.0) + page.width / 2.0 / 2.0 - textWidth / 2.0
    requires y == row as real * (page.height / 3.0) + page.height / 3.0 / 2.0 - textHeight / 2.0
    requires d == if diagonal then Draw(x + textWidth / 2.0, y + textHeight / 2.0, 45) else Draw(x, y, 0)
    ensures d == CellDraw((2 * row + col) / 2, (2 * row + col) % 2, page, textWidth, textHeight, diagonal)
  {
    assert (2 * row + col) / 2 == row && (2 * row + col) % 2 == col;
    assert d == CellDraw(row, col, page, textWidth, textHeight, diagonal);
  }

  /** The nested row and column loops of one page. */
  method DrawPage(page: PageSize, textWidth: real, textHeight: real, repeat: bool, diagonal: bool)
    returns (draws: seq<Draw>)
    ensures draws == PageDraws(page, textWidth, textHeight, repeat, diagonal)
  {
    if repeat {
      var spacingX := page.width / 2.0;
      var spacingY := page.height / 3.0;
      draws := [];
      var row := 0;
      while row < 3
        invariant 0 <= row <= 3
        invariant draws == seq(2 * row, k requires 0 <= k < 2 * row => CellDraw(k / 2, k % 2, page, textWidth, textHeight, diagonal))
      {
        var col := 0;
        while col < 2
          invariant 0 <= col <= 2
          invariant draws == seq(2 * row + col, k requires 0 <= k < 2 * row + col => CellDraw(k / 2, k % 2, page, textWidth, textHeight, diagonal))
        {
          var x := col as real * spacingX + spacingX / 2.0 - textWidth / 2.0;
          var y := row as real * spacingY + spacingY / 2.0 - textHeight / 2.0;
          var d := if diagonal then Draw(x + textWidth / 2.0, y + textHeight / 2.0, 45) else Draw(x, y, 0);
          LoopCell(row, col, page, textWidth, textHeight, diagonal, x, y, d);
          draws := draws + [d];
          col := col + 1;
        }
        row := row + 1;
      }
    } else {
      var x := page.width / 2.0 - textWidth / 2.0;
      var y := page.height / 2.0 - textHeight / 2.0;
      if diagonal {
        draws := [Draw(page.width / 2.0, page.height / 2.0, 45)];
      } else {
        draws := [Draw(x, y, 0)];
      }
    }
  }

  /** The loop over the pages of the document: each page gets the draws for its own size. */
  method DrawDocument(pages: seq<PageSize>, textWidth: real, textHeight: real, repeat: bool, diagonal: bool)
    returns (draws: seq<seq<Draw>>)
    ensures |draws| == |pages|
    ensures forall i :: 0 <= i < |pages| ==> draws[i] == PageDraws(pages[i], textWidth, textHeight, repeat, diagonal)
  {
    draws := [];
    var i := 0;
    while i < |pages|
      invariant 0 <= i <= |pages|
      invariant |draws| == i
      invariant forall j :: 0 <= j < i ==> draws[j] == PageDraws(pages[j], textWidth, textHeight, repeat, diagonal)
    {
      var d := DrawPage(pages[i], textWidth, textHeight, repeat, diagonal);
      draws := draws + [d];
      i := i + 1;
    }
  }
}
