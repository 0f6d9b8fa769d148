/** The best score kept in browser-local storage under one key.
    The stored text is abstracted to what `parseInt(text || '0', 10)` makes
    of it: `Some(n)` for a number (a missing key reads as `Some(0)`), `None`
    for text that does not parse (NaN). */
module BestScore {
  import opened Options

  /** The value shown in the best-score label: a number as is, NaN as 0. */
  function Shown(stored: Option<int>): (shown: int)
    ensures stored.Some? ==> shown == stored.value
    ensures stored.None? ==> shown == 0
  {
    match stored
    case Some(v) => v
    case None => 0
  }

  /** Game-over update: the score is written only when it beats the stored
      value. A NaN entry is never replaced, since `score > NaN` is false. */
  function SaveBest(stored: Option<int>, score: int): (r: Option<int>)
    ensures stored.None? ==> r.None?
    ensures stored.Some? ==> r.Some? && r.value >= stored.value && r.value >= score
    ensures stored.Some? ==> r.value == stored.value || r.value == score
  {
    match stored
    case None => None
    case Some(prev) => if score > prev then Some(score) else stored
  }

  /** The shown best never goes down across a save, and after a save it is
      at least the saved score unless the stored text is not a number. */
  lemma SaveBestNeverLowers(stored: Option<int>, score: int)
    ensures Shown(SaveBest(stored, score)) >= Shown(stored)
    ensures stored.Some? ==> Shown(SaveBest(stored, score)) >= score
    ensures stored.None? ==> Shown(SaveBest(stored, score)) == 0
  {
  }

  /** Saving the same score twice writes nothing the second time. */
  lemma SaveBestIdempotent(stored: Option<int>, score: int)
    ensures SaveBest(SaveBest(stored, score), score) == SaveBest(stored, score)
  {
  }
}
