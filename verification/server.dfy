/**
 * The HTTP handlers of the trainer (src/index.ts): `/learn` chooses the next card from a
 * snapshot of the `words` table, `/review` grades an answer and writes the card back.
 */
module Server {
  import opened Wrappers
  import opened Text
  import opened Cards
  import Logic
  import Lingvist

  /** At this many cards in the learning queue, `/learn` stops introducing new words. */
  const LEARNING_QUEUE_LIMIT: nat := 5

  const FINISH_HINT: string := "Let's finish these before starting new ones."
  const CAUGHT_UP: string := "All caught up! Come back later."
  const GREAT_JOB: string := "Great job!"
  const REVIEW_AGAIN: string := "Review this again soon."
  const CARD_NOT_FOUND: string := "Card not found"

  datatype Kind = NewWord | Review

  /** A card to present, of the given kind and with an optional hint, or the caught-up message. */
  datatype LearnResponse = Present(kind: Kind, card: Card, hint: Option<string>) | CaughtUp(message: string)

  /** A card in the learning queue: reviewed before, interval 0 (failed and not yet passed again). */
  predicate IsLearning(c: Card) {
    !c.isNew && c.interval == 0
  }

  /** How many cards of the snapshot are in the learning queue. */
  function LearningCount(cards: seq<Card>): (n: nat)
    ensures n <= |cards|
    ensures n == 0 <==> forall i :: 0 <= i < |cards| ==> !IsLearning(cards[i])
  {
    if cards == [] then 0
    else LearningCount(cards[1..]) + (if IsLearning(cards[0]) then 1 else 0)
  }

  predicate HasOverdue(cards: seq<Card>, now: int) {
    exists i :: 0 <= i < |cards| && IsOverdueReview(cards[i], now)
  }

  predicate HasNew(cards: seq<Card>) {
    exists i :: 0 <= i < |cards| && cards[i].isNew
  }

  /**
   * `/learn`: first the overdue review with the earliest due date; failing that, once the
   * learning queue is full, the learning card with the earliest due date (even though it is
   * not due yet) with a hint; failing that, the new word with the lowest frequency rank;
   * otherwise the caught-up message.
   */
  function Learn(cards: seq<Card>, now: int): (r: LearnResponse)
    ensures r.Present? ==> r.card in cards
    ensures HasOverdue(cards, now) ==>
      && r.Present? && r.kind == Review && r.hint == None && IsOverdueReview(r.card, now)
      && forall c :: c in cards && IsOverdueReview(c, now) ==> r.card.dueDate <= c.dueDate
    ensures !HasOverdue(cards, now) && LearningCount(cards) >= LEARNING_QUEUE_LIMIT ==>
      && r.Present? && r.kind == Review && r.hint == Some(FINISH_HINT)
      && IsLearning(r.card) && r.card.dueDate > now
      && forall c :: c in cards && IsLearning(c) ==> r.card.dueDate <= c.dueDate
    ensures !HasOverdue(cards, now) && LearningCount(cards) < LEARNING_QUEUE_LIMIT && HasNew(cards) ==>
      && r.Present? && r.kind == NewWord && r.hint == None && r.card.isNew
      && forall c :: c in cards && c.isNew ==> r.card.frequencyRank <= c.frequencyRank
    ensures !HasOverdue(cards, now) && LearningCount(cards) < LEARNING_QUEUE_LIMIT && !HasNew(cards) ==>
      r == CaughtUp(CAUGHT_UP)
  {
    var overdue := ArgMinBy(cards, (c: Card) => IsOverdueReview(c, now), (c: Card) => c.dueDate);
    if overdue.Some? then
      Present(Review, cards[overdue.value], None)
    else
      var earlyReview :=
        if LearningCount(cards) >= LEARNING_QUEUE_LIMIT
        then ArgMinBy(cards, IsLearning, (c: Card) => c.dueDate)
        else None;
      if earlyReview.Some? then
        Present(Review, cards[earlyReview.value], Some(FINISH_HINT))
      else
        var newWord := ArgMinBy(cards, (c: Card) => c.isNew, (c: Card) => c.frequencyRank);
        if newWord.Some? then Present(NewWord, cards[newWord.value], None)
        else CaughtUp(CAUGHT_UP)
  }

  /**
   * The policy's guarantees across tiers: a new word is never served while a review is
   * overdue, and the hint appears only when the learning queue is full.
   */
  lemma LearnTierOrder(cards: seq<Card>, now: int)
    ensures var r := Learn(cards, now);
      && (r.Present? && r.kind == NewWord ==> !HasOverdue(cards, now) && LearningCount(cards) < LEARNING_QUEUE_LIMIT)
      && (r.Present? && r.hint.Some? ==> LearningCount(cards) >= LEARNING_QUEUE_LIMIT)
  {
  }

  /**
   * Below the queue limit `/learn` serves exactly what the in-memory service's `getNextCard`
   * serves: the overwhelm protection is the only difference between the two policies.
   */
  lemma LearnMatchesServiceBelowLimit(cards: seq<Card>, now: int)
    requires LearningCount(cards) < LEARNING_QUEUE_LIMIT
    ensures var r := Learn(cards, now);
      var s := Lingvist.NextCard(cards, now);
      && (r.Present? <==> s.Some?)
      && (r.Present? ==> r.card == s.value && (r.kind == NewWord <==> !HasOverdue(cards, now)))
  {
  }

  /** `/review`'s notion of a correct answer: equal normal forms. */
  function IsCorrect(f: CharFolding, userAnswer: string, target: string): (b: bool)
    ensures userAnswer == target ==> b
  {
    Logic.NormalizeText(f, userAnswer) == Logic.NormalizeText(f, target)
  }

  /**
   * Accents never decide the grade: an answer with an accented letter is graded like the same
   * answer with its base letter.
   */
  lemma AccentsDoNotMatter(f: CharFolding, u: string, x: char, y: char, marks: string, v: string, target: string)
    requires f.decompose(f.lower(x)) == f.decompose(f.lower(y)) + marks
    requires forall k :: 0 <= k < |marks| ==> IsCombiningMark(marks[k])
    ensures IsCorrect(f, u + [x] + v, target) == IsCorrect(f, u + [y] + v, target)
  {
    Logic.AccentIgnored(f, u, x, y, marks, v);
  }

  /** Typing the target's normal form is accepted, so accents, case and surrounding spaces never matter. */
  lemma NormalFormIsAccepted(f: CharFolding, target: string)
    requires Coherent(f)
    ensures IsCorrect(f, Logic.NormalizeText(f, target), target)
  {
    Logic.NormalizeIdempotent(f, target);
  }

  /** The message `/review` shows: praise only for a correct answer typed without revealing it. */
  function ReviewMessage(correct: bool, revealed: bool): (m: string)
    ensures m == GREAT_JOB <==> correct && !revealed
    ensures m == GREAT_JOB || m == REVIEW_AGAIN
  {
    if correct && !revealed then GREAT_JOB else REVIEW_AGAIN
  }

  /**
   * The message agrees with the schedule: "Great job!" exactly when the card leaves the
   * learning queue, that is when the new interval is not zero.
   */
  lemma ReviewMessageMatchesSchedule(card: Card, correct: bool, revealed: bool, now: int)
    requires card.interval >= 0
    ensures ReviewMessage(correct, revealed) == GREAT_JOB <==> Logic.CalculateReview(card, correct, revealed, now).interval != 0
  {
    Logic.LearningIffFailed(card, correct, revealed, now);
  }

  /** The body `/review` answers with. */
  datatype ReviewResponse = ReviewResponse(correct: bool, correctAnswer: string, nextReviewDays: int, message: string)

  /** Storing a well-formed row under its own id keeps every row well-formed and keyed by its id. */
  lemma StoreKeepsRowsValid(rows: map<string, Card>, id: string, card: Card, stored: map<string, Card>)
    requires forall k :: k in rows ==> rows[k].id == k && Logic.WellFormed(rows[k])
    requires card.id == id && Logic.WellFormed(card)
    requires stored == rows[id := card]
    ensures forall k :: k in stored ==> stored[k].id == k && Logic.WellFormed(stored[k])
  {
  }

  /** The `words` table, keyed by card id; every row is in a state the live scheduler keeps. */
  class WordTable {
    var rows: map<string, Card>

    ghost predicate Valid()
      reads this
    {
      forall id :: id in rows ==> rows[id].id == id && Logic.WellFormed(rows[id])
    }

    constructor (initial: map<string, Card>)
      requires forall id :: id in initial ==> initial[id].id == id && Logic.WellFormed(initial[id])
      ensures Valid() && rows == initial
    {
      rows := initial;
    }

    /**
     * `/review`: an unknown id is an error and changes nothing; otherwise the answer is graded
     * on normal forms, the live scheduler's update overwrites that one row, and the response
     * carries the grade, the target text, the new interval and the message.
     */
    method Review(cardId: string, userAnswer: string, revealed: bool, f: CharFolding, now: int)
      returns (r: Result<ReviewResponse, string>)
      requires Valid()
      modifies this
      ensures Valid()
      ensures cardId !in old(rows) ==> r == Failure(CARD_NOT_FOUND) && rows == old(rows)
      ensures cardId in old(rows) ==>
        var card := old(rows)[cardId];
        var correct := IsCorrect(f, userAnswer, card.vietnamese);
        var updates := Logic.CalculateReview(card, correct, revealed, now);
        && rows == old(rows)[cardId := Logic.ApplyUpdate(card, updates)]
        && r == Success(ReviewResponse(correct, card.vietnamese, updates.interval, ReviewMessage(correct, revealed)))
    {
      if cardId !in rows {
        return Failure(CARD_NOT_FOUND);
      }
      var card := rows[cardId];
      var normalizedInput := Logic.NormalizeText(f, userAnswer);
      var normalizedTarget := Logic.NormalizeText(f, card.vietnamese);
      var isCorrect := normalizedInput == normalizedTarget;
      assert isCorrect == IsCorrect(f, userAnswer, card.vietnamese);
      var updates := Logic.CalculateReview(card, isCorrect, revealed, now);
      var updated := Logic.ApplyUpdate(card, updates);
      Logic.ReviewKeepsWellFormed(card, isCorrect, revealed, now);
      StoreKeepsRowsValid(rows, cardId, updated, rows[cardId := updated]);
      rows := rows[cardId := updated];
      r := Success(ReviewResponse(isCorrect, card.vietnamese, updates.interval, ReviewMessage(isCorrect, revealed)));
    }
  }
}
