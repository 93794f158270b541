/**
 * One couple's row of a round as the dashboard holds it: the start number and, per category
 * code, the list of judge scores (a slot is `None` where the judge gave none). A category
 * missing from the map is a cell that holds no list at all.
 */
module Couples {
  import opened Optional

  datatype Couple = Couple(startNumber: string, scores: map<string, seq<Option<real>>>)

  /** The judge-score list of a category, or the empty list when the row has none. */
  function ScoresOf(row: Couple, cat: string): seq<Option<real>> {
    if cat in row.scores then row.scores[cat] else []
  }
}
