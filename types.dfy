/** The records the app passes around: a photo, a tooltip, and the rows the
    database returns for them. */
module Types {
  import Decimal

  /** A tooltip as the components hold it; `x` and `y` are percentages of the
      rendered image's width and height. */
  datatype Tooltip = Tooltip(id: string, x: real, y: real, text: string)

  /** A row of the `photos` table. */
  datatype Photo = Photo(id: string, imageUrl: string, shortId: string, createdAt: string)

  /** A row of the `tooltips` table; its `id` is numeric. */
  datatype TooltipRow = TooltipRow(id: nat, photoId: string, xPosition: real, yPosition: real, text: string)

  /** The component state `{ ...row, url }`: a photo row with the URL the image is shown from. */
  datatype ShownPhoto = ShownPhoto(row: Photo, url: string)

  /** A pending tooltip position `{ x, y }`. */
  datatype Point = Point(x: real, y: real)

  /** The conversion both components apply to a tooltip row. */
  function FromRow(row: TooltipRow): (t: Tooltip)
    ensures Decimal.AllDigits(t.id) && Decimal.ParseDecimal(t.id) == row.id
  {
    Decimal.ParseDecimalString(row.id);
    Tooltip(Decimal.DecimalString(row.id), row.xPosition, row.yPosition, row.text)
  }

  /** `rows.map(FromRow)`. */
  function FromRows(rows: seq<TooltipRow>): (ts: seq<Tooltip>)
    ensures |ts| == |rows|
    ensures forall i :: 0 <= i < |rows| ==> ts[i] == FromRow(rows[i])
  {
    if |rows| == 0 then [] else FromRows(rows[..|rows| - 1]) + [FromRow(rows[|rows| - 1])]
  }

  ghost predicate UniqueIds(ts: seq<Tooltip>) {
    forall i, j :: 0 <= i < j < |ts| ==> ts[i].id != ts[j].id
  }

  ghost predicate UniqueRowIds(rows: seq<TooltipRow>) {
    forall i, j :: 0 <= i < j < |rows| ==> rows[i].id != rows[j].id
  }

  /** The mapping keeps each field: the id is the row id as text, and x, y and
      text are the row's position and text. */
  lemma FromRowFields(row: TooltipRow)
    ensures Decimal.ParseDecimal(FromRow(row).id) == row.id
    ensures FromRow(row).x == row.xPosition && FromRow(row).y == row.yPosition
    ensures FromRow(row).text == row.text
  {
  }

  /** Rows with distinct ids give tooltips with distinct ids, and conversely. */
  lemma FromRowsUnique(rows: seq<TooltipRow>)
    ensures UniqueIds(FromRows(rows)) <==> UniqueRowIds(rows)
  {
    var ts := FromRows(rows);
    forall i, j | 0 <= i < j < |rows|
      ensures ts[i].id != ts[j].id <==> rows[i].id != rows[j].id
    {
      Decimal.DecimalStringInjective(rows[i].id, rows[j].id);
    }
  }
}
