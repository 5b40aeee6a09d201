/** The sort state machine driven by clicks on the column headers, and the
    arrow shown next to each header. */
module SortHeader {
  import opened Employees

  /** The sort state after a click on the header of column `k`: the same
      column again flips the direction; any other column, or the first
      click, sorts by `k` ascending. */
  function NextSortConfig(cfg: SortConfig, k: SortKey): (r: SortConfig)
    ensures r.SortBy? && r.key == k
    ensures r.direction != Ascending <==> cfg.SortBy? && cfg.key == k && cfg.direction == Ascending
    ensures cfg.SortBy? && cfg.key == k ==> r.direction != cfg.direction
    ensures !(cfg.SortBy? && cfg.key == k) ==> r.direction == Ascending
  {
    var direction :=
      if cfg.SortBy? && cfg.key == k then
        (match cfg.direction
         case Ascending => Descending
         case Descending => Ascending)
      else Ascending;
    SortBy(k, direction)
  }

  /** Two clicks on the header of the active column restore the sort
      state; two clicks on any header leave that column sorted descending
      when it was not active before. */
  lemma {:induction false} TwoClicks(cfg: SortConfig, k: SortKey)
    ensures cfg.SortBy? && cfg.key == k ==> NextSortConfig(NextSortConfig(cfg, k), k) == cfg
    ensures !(cfg.SortBy? && cfg.key == k) ==> NextSortConfig(NextSortConfig(cfg, k), k) == SortBy(k, Descending)
  {
  }

  const UpArrow: string := " \U{2191}"
  const DownArrow: string := " \U{2193}"

  /** The text appended to the header of `column`. */
  function SortArrow(cfg: SortConfig, column: SortKey): (r: string)
    ensures r != "" <==> cfg.SortBy? && cfg.key == column
    ensures r == UpArrow <==> cfg.SortBy? && cfg.key == column && cfg.direction == Ascending
    ensures r == DownArrow <==> cfg.SortBy? && cfg.key == column && cfg.direction == Descending
  {
    assert UpArrow != DownArrow by { assert UpArrow[1] != DownArrow[1]; }
    if cfg.SortBy? && cfg.key == column then
      match cfg.direction
      case Ascending => UpArrow
      case Descending => DownArrow
    else ""
  }

  /** After a click on column `k`, exactly the header of `k` carries an
      arrow, and it points the way the new direction sorts. */
  lemma ArrowAfterClick(cfg: SortConfig, k: SortKey, column: SortKey)
    ensures SortArrow(NextSortConfig(cfg, k), column) != "" <==> column == k
    ensures SortArrow(NextSortConfig(cfg, k), k)
         == if cfg.SortBy? && cfg.key == k && cfg.direction == Ascending then DownArrow else UpArrow
  {
  }
}
