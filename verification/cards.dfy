/**
 * The flashcard record shared by every scheduler in the trainer, the SRS metadata the
 * schedulers compute, and the arithmetic they have in common.
 * Timestamps are integer milliseconds; the current time is always passed in.
 */
module Cards {
  import opened Wrappers

  const MS_PER_MINUTE: int := 60 * 1000
  const MS_PER_DAY: int := 24 * 60 * MS_PER_MINUTE

  /** The lowest ease factor any scheduler allows. */
  const MIN_EASE_FACTOR: real := 1.3
  /** The ease factor of a card that was never reviewed. */
  const DEFAULT_EASE_FACTOR: real := 2.5

  /** One vocabulary item with its learning state (a row of the `words` table). */
  datatype Card = Card(
    id: string,
    english: string,
    vietnamese: string,
    frequencyRank: int,
    isNew: bool,
    repetition: int,
    interval: int,
    easeFactor: real,
    dueDate: int)

  /** Spaced-repetition metadata: what a scheduler computes for a card. */
  datatype Srs = Srs(repetition: int, interval: int, easeFactor: real, dueDate: int)

  /** `{ ...card, ...updates, isNew }`: the card with new SRS metadata and the given `isNew`. */
  function WithSrs(card: Card, s: Srs, isNew: bool): Card {
    card.(repetition := s.repetition, interval := s.interval, easeFactor := s.easeFactor,
          dueDate := s.dueDate, isNew := isNew)
  }

  /** A card that has been reviewed before and whose due date has passed. */
  predicate IsOverdueReview(c: Card, now: int) {
    !c.isNew && c.dueDate <= now
  }

  /** `Math.round`: the nearest integer, halves rounded up. */
  function Round(x: real): (r: int)
    ensures x - 0.5 < r as real <= x + 0.5
  {
    (x + 0.5).Floor
  }

  /** The SM-2 ease-factor change for quality `q`: 0.1 - (5 - q) * (0.08 + (5 - q) * 0.02). */
  function EaseDelta(q: int): (d: real)
    ensures q == 5 ==> d == 0.1
    ensures q == 4 ==> d == 0.0
    ensures q == 3 ==> d == -0.14
  {
    0.1 - (5 - q) as real * (0.08 + (5 - q) as real * 0.02)
  }

  /** Clamps an ease factor from below at MIN_EASE_FACTOR (`Math.max(1.3, e)`). */
  function AtLeastMinEase(e: real): (r: real)
    ensures r >= MIN_EASE_FACTOR && r >= e
    ensures r == e || r == MIN_EASE_FACTOR
  {
    if e < MIN_EASE_FACTOR then MIN_EASE_FACTOR else e
  }

  /**
   * The position of the first card that `keep` selects and that has the least `key` among the
   * selected ones, or None when `keep` selects nothing: a filter, a stable ascending sort on
   * `key`, and the head of the result.
   */
  function ArgMinBy(cards: seq<Card>, keep: Card -> bool, key: Card -> int): (r: Option<nat>)
    ensures r.None? <==> forall i :: 0 <= i < |cards| ==> !keep(cards[i])
    ensures r.Some? ==>
      && r.value < |cards| && keep(cards[r.value])
      && (forall j :: 0 <= j < |cards| && keep(cards[j]) ==> key(cards[r.value]) <= key(cards[j]))
      && (forall j :: 0 <= j < r.value && keep(cards[j]) ==> key(cards[r.value]) < key(cards[j]))
  {
    if cards == [] then None
    else
      var rest := ArgMinBy(cards[1..], keep, key);
      if keep(cards[0]) && (rest.None? || key(cards[0]) <= key(cards[1..][rest.value])) then Some(0)
      else if rest.Some? then Some(rest.value + 1)
      else None
  }
}
