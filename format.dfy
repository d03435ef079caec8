/**
 * Small pure helpers of the table: the cell text truncation and the page
 * number the display fetch asks for.
 */
module Format {
  import opened Wrappers
  import opened Selection

  /** What an empty cell shows. */
  const Placeholder: string := "-"

  /** The character appended to a cut-off cell text. */
  const Ellipsis: char := '\U{2026}'

  /**
   * The default width of a truncated cell. The model counts Unicode scalar
   * values where JavaScript counts UTF-16 code units.
   */
  const DefaultMax: int := 80

  /** Where JavaScript's `s.slice(0, end)` stops on a string of length `len`. */
  function SliceEnd(len: nat, end: int): (e: nat)
    ensures e <= len
  {
    if end < 0 then (if len + end < 0 then 0 else len + end)
    else if end < len then end else len
  }

  /**
   * The text a long cell shows: a placeholder for a missing or empty value,
   * the value itself when it fits in `max`, and otherwise its first `max`
   * characters followed by an ellipsis.
   */
  function Truncate(value: Option<string>, max: int): (shown: string)
    ensures value.None? || value.value == [] ==> shown == Placeholder
    ensures value.Some? && value.value != [] && |value.value| <= max ==> shown == value.value
    ensures value.Some? && value.value != [] && |value.value| > max ==>
              |shown| >= 1 && |shown| - 1 < |value.value|
              && shown == value.value[..|shown| - 1] + [Ellipsis]
    ensures value.Some? && |value.value| > max >= 0 ==> |shown| == max + 1
    ensures 0 <= max ==> |shown| <= max + 1 || shown == Placeholder
  {
    if value.None? || value.value == [] then Placeholder
    else if |value.value| > max then value.value[..SliceEnd(|value.value|, max)] + [Ellipsis]
    else value.value
  }

  /** The two columns whose text is truncated. */
  datatype TextColumn = ArtistColumn | InscriptionsColumn

  /** The field of a row that a truncated column shows. */
  function ColumnValue(row: Artwork, column: TextColumn): Option<string>
  {
    match column
    case ArtistColumn => row.artistDisplay
    case InscriptionsColumn => row.inscriptions
  }

  /**
   * The text a row shows in the artist or inscriptions column: its field,
   * truncated at the default width.
   */
  function CellText(row: Artwork, column: TextColumn): (shown: string)
    ensures var v := ColumnValue(row, column); v.None? || v.value == [] ==> shown == Placeholder
    ensures var v := ColumnValue(row, column);
            v.Some? && v.value != [] && |v.value| <= DefaultMax ==> shown == v.value
    ensures var v := ColumnValue(row, column);
            v.Some? && |v.value| > DefaultMax ==> shown == v.value[..DefaultMax] + [Ellipsis]
    ensures |shown| <= DefaultMax + 1
  {
    Truncate(ColumnValue(row, column), DefaultMax)
  }

  /** With room for at least one character, truncating a shown text again changes nothing. */
  lemma TruncateIdempotent(value: Option<string>, max: int)
    requires max >= 1
    ensures Truncate(Some(Truncate(value, max)), max) == Truncate(value, max)
  {
  }

  /**
   * The page number the display fetch requests for the window starting at
   * record `first` with `rows` records per page (`first / rows + 1`). The
   * result is `None` when `rows <= 0` or `first` is not a multiple of `rows`.
   */
  function RequestedPage(first: int, rows: int): (page: Option<int>)
    ensures page.Some? <==> rows > 0 && first % rows == 0
    ensures page.Some? ==> first == (page.value - 1) * rows
    ensures page.Some? && first >= 0 ==> page.value >= 1
  {
    if rows > 0 && first % rows == 0 then Some(first / rows + 1) else None
  }
}
