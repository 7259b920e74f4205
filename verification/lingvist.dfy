/**
 * The in-memory learning service (src/lingvist.ts): the six-grade SM-2 scheduler, the
 * two-tier card selection, the card store with its review operation, and the typo detector.
 */
module Lingvist {
  import opened Wrappers
  import opened Text
  import opened Cards

  /** The six SM-2 quality grades. */
  datatype ReviewGrade = Blackout | Bad | Fail | Pass | Good | Perfect {
    function Value(): int {
      match this
      case Blackout => 0
      case Bad => 1
      case Fail => 2
      case Pass => 3
      case Good => 4
      case Perfect => 5
    }
  }

  /** `addDays`: the timestamp `days` whole days after `date`. */
  function AddDays(date: int, days: int): (r: int)
    ensures days == 0 ==> r == date
    ensures days > 0 ==> r >= date + MS_PER_DAY
  {
    date + days * MS_PER_DAY
  }

  /** Adding days twice is adding their sum. */
  lemma AddDaysTwice(date: int, x: int, y: int)
    ensures AddDays(AddDays(date, x), y) == AddDays(date, x + y)
  {
  }

  /**
   * The six-grade SM-2 step. A grade below Pass resets the repetition count and schedules the
   * card for the next day with its ease unchanged. A passing grade moves the ease by the SM-2
   * formula (+0.1 for Perfect, 0 for Good, -0.14 for Pass) with a floor of 1.3, and steps the
   * interval 1, 6, then interval times ease.
   */
  function CalculateNextReview(card: Card, grade: ReviewGrade, now: int): (r: Srs)
    ensures grade.Value() < Pass.Value() ==> r == Srs(0, 1, card.easeFactor, AddDays(now, 1))
    ensures grade.Value() >= Pass.Value() ==>
      && r.easeFactor >= MIN_EASE_FACTOR
      && (grade == Perfect ==> r.easeFactor == AtLeastMinEase(card.easeFactor + 0.1))
      && (grade == Good ==> r.easeFactor == AtLeastMinEase(card.easeFactor))
      && (grade == Pass ==> r.easeFactor == AtLeastMinEase(card.easeFactor - 0.14))
      && (card.repetition == 0 ==> r.interval == 1)
      && (card.repetition == 1 ==> r.interval == 6)
      && (card.repetition != 0 && card.repetition != 1 ==>
            r.interval == Round(card.interval as real * r.easeFactor))
      && r.repetition == card.repetition + 1
      && r.dueDate == AddDays(now, r.interval)
  {
    if grade.Value() < Pass.Value() then
      Srs(0, 1, card.easeFactor, AddDays(now, 1))
    else
      var newEaseFactor := card.easeFactor + EaseDelta(grade.Value());
      var constrainedEF := AtLeastMinEase(newEaseFactor);
      var interval :=
        if card.repetition == 0 then 1
        else if card.repetition == 1 then 6
        else Round(card.interval as real * constrainedEF);
      Srs(card.repetition + 1, interval, constrainedEF, AddDays(now, interval))
  }

  /**
   * The state the service keeps on every card: a card that was never reviewed is at
   * repetition 0 and interval 0, a reviewed card has an interval of at least one day.
   */
  predicate WellFormed(c: Card) {
    && c.repetition >= 0 && c.easeFactor >= MIN_EASE_FACTOR
    && (c.isNew ==> c.repetition == 0 && c.interval == 0)
    && (!c.isNew ==> c.interval >= 1)
  }

  /** A review as the service stores it (the new metadata, no longer new) keeps a card well-formed. */
  lemma NextReviewKeepsWellFormed(card: Card, grade: ReviewGrade, now: int)
    requires WellFormed(card)
    ensures WellFormed(WithSrs(card, CalculateNextReview(card, grade, now), false))
  {
    var r := CalculateNextReview(card, grade, now);
    if grade.Value() >= Pass.Value() && card.repetition != 0 && card.repetition != 1 {
      assert !card.isNew;
      assert card.interval as real * r.easeFactor >= card.interval as real * MIN_EASE_FACTOR;
    }
  }

  /** The word columns a service is seeded with. */
  datatype WordData = WordData(id: string, english: string, vietnamese: string, frequencyRank: int)

  /** `findIndex` on the id: the first position holding that id, or None. */
  function FindIndex(db: seq<Card>, id: string): (r: Option<nat>)
    ensures r.None? <==> forall i :: 0 <= i < |db| ==> db[i].id != id
    ensures r.Some? ==>
      && r.value < |db| && db[r.value].id == id
      && forall i :: 0 <= i < r.value ==> db[i].id != id
  {
    if db == [] then None
    else if db[0].id == id then Some(0)
    else
      var rest := FindIndex(db[1..], id);
      if rest.Some? then Some(rest.value + 1) else None
  }

  /**
   * The service's selection: the overdue review with the earliest due date (the first such
   * card in the store on a tie), otherwise the new card with the lowest frequency rank,
   * otherwise nothing.
   */
  function NextCard(db: seq<Card>, now: int): (r: Option<Card>)
    ensures r.Some? ==> r.value in db
    ensures (exists i :: 0 <= i < |db| && IsOverdueReview(db[i], now)) ==>
      && r.Some? && IsOverdueReview(r.value, now)
      && forall c :: c in db && IsOverdueReview(c, now) ==> r.value.dueDate <= c.dueDate
    ensures (forall i :: 0 <= i < |db| ==> !IsOverdueReview(db[i], now)) ==>
      && (r.Some? ==> r.value.isNew && forall c :: c in db && c.isNew ==> r.value.frequencyRank <= c.frequencyRank)
      && (r.None? <==> forall i :: 0 <= i < |db| ==> !db[i].isNew)
    ensures (exists i :: 0 <= i < |db| && IsOverdueReview(db[i], now)) ==>
      && r.Some?
      && (exists i :: 0 <= i < |db| && db[i] == r.value
            && forall j :: 0 <= j < i && IsOverdueReview(db[j], now) ==> db[j].dueDate > db[i].dueDate)
    ensures (forall i :: 0 <= i < |db| ==> !IsOverdueReview(db[i], now)) && r.Some? ==>
      (exists i :: 0 <= i < |db| && db[i] == r.value
         && forall j :: 0 <= j < i && db[j].isNew ==> db[j].frequencyRank > db[i].frequencyRank)
  {
    var due := ArgMinBy(db, (c: Card) => IsOverdueReview(c, now), (c: Card) => c.dueDate);
    if due.Some? then Some(db[due.value])
    else
      var unseen := ArgMinBy(db, (c: Card) => c.isNew, (c: Card) => c.frequencyRank);
      if unseen.Some? then Some(db[unseen.value]) else None
  }

  /** The grade `submitReview` gives: Perfect for an exact match after trimming and lowercasing, else Fail. */
  function SubmitGrade(f: CharFolding, userInput: string, target: string): (g: ReviewGrade)
    ensures g == Perfect <==> LowerCase(f, Trim(userInput)) == LowerCase(f, target)
    ensures g != Perfect ==> g == Fail
  {
    if LowerCase(f, Trim(userInput)) == LowerCase(f, target) then Perfect else Fail
  }

  /** Whitespace typed around an answer never changes its grade. */
  lemma SubmitGradeIgnoresSurroundingWhitespace(f: CharFolding, w1: string, x: string, w2: string, target: string)
    requires forall k :: 0 <= k < |w1| ==> IsJsWhitespace(w1[k])
    requires forall k :: 0 <= k < |w2| ==> IsJsWhitespace(w2[k])
    ensures SubmitGrade(f, w1 + x + w2, target) == SubmitGrade(f, x, target)
  {
    TrimIgnoresSurroundingWhitespace(w1, x, w2);
  }

  /**
   * Typing the target, with any whitespace around it, earns Perfect whenever the target itself
   * has no whitespace at its ends (the target is lowercased but not trimmed).
   */
  lemma TargetIsPerfect(f: CharFolding, w1: string, target: string, w2: string)
    requires IsTrimmed(target)
    requires forall k :: 0 <= k < |w1| ==> IsJsWhitespace(w1[k])
    requires forall k :: 0 <= k < |w2| ==> IsJsWhitespace(w2[k])
    ensures SubmitGrade(f, w1 + target + w2, target) == Perfect
  {
    TrimIgnoresSurroundingWhitespace(w1, target, w2);
  }

  /**
   * What the grade does to the schedule: a wrong answer restarts the card at interval 1, due
   * the next day, with its ease unchanged; a right one raises the ease by 0.1 and counts a
   * repetition.
   */
  lemma SubmitGradeSchedules(f: CharFolding, card: Card, userInput: string, now: int)
    ensures var g := SubmitGrade(f, userInput, card.vietnamese);
      var r := CalculateNextReview(card, g, now);
      && (g == Fail ==> r == Srs(0, 1, card.easeFactor, AddDays(now, 1)))
      && (g == Perfect ==> r.easeFactor == card.easeFactor + 0.1 || r.easeFactor == MIN_EASE_FACTOR)
      && (g == Perfect ==> r.repetition == card.repetition + 1)
  {
    var g := SubmitGrade(f, userInput, card.vietnamese);
    assert g == Perfect || g == Fail;
    GradeSchedules(card, g, now);
  }

  lemma GradeSchedules(card: Card, g: ReviewGrade, now: int)
    requires g == Perfect || g == Fail
    ensures var r := CalculateNextReview(card, g, now);
      && (g == Fail ==> r == Srs(0, 1, card.easeFactor, AddDays(now, 1)))
      && (g == Perfect ==> r.easeFactor == card.easeFactor + 0.1 || r.easeFactor == MIN_EASE_FACTOR)
      && (g == Perfect ==> r.repetition == card.repetition + 1)
  {
  }

  /** What `submitReview` reports: whether the answer was right and the new interval in days. */
  datatype Submission = Submission(correct: bool, diff: int)

  const CARD_NOT_FOUND: string := "Card not found"

  function Min(x: nat, y: nat): nat {
    if x <= y then x else y
  }

  /**
   * Levenshtein distance between `a` and `b`, by the recurrence on their last characters
   * that the typo detector's matrix follows.
   */
  function EditDistance(a: string, b: string): nat
    decreases |a| + |b|
  {
    if |a| == 0 then |b|
    else if |b| == 0 then |a|
    else if a[|a| - 1] == b[|b| - 1] then EditDistance(a[..|a| - 1], b[..|b| - 1])
    else 1 + Min(EditDistance(a[..|a| - 1], b[..|b| - 1]),
                 Min(EditDistance(a[..|a| - 1], b), EditDistance(a, b[..|b| - 1])))
  }

  /** The distance to or from the empty string is the other string's length. */
  lemma EditDistanceToEmpty(a: string)
    ensures EditDistance(a, []) == |a| && EditDistance([], a) == |a|
  {
  }

  /** The distance is zero exactly between equal strings. */
  lemma {:induction false} EditDistanceZeroIffEqual(a: string, b: string)
    ensures EditDistance(a, b) == 0 <==> a == b
    decreases |a| + |b|
  {
    if |a| > 0 && |b| > 0 {
      EditDistanceZeroIffEqual(a[..|a| - 1], b[..|b| - 1]);
      if a == b {
        assert a[..|a| - 1] == b[..|b| - 1];
      }
      if EditDistance(a, b) == 0 && a[|a| - 1] == b[|b| - 1] {
        assert a == a[..|a| - 1] + [a[|a| - 1]] && b == b[..|b| - 1] + [b[|b| - 1]];
      }
    }
  }

  /** The distance is at least the difference in length and at most the longer length. */
  lemma {:induction false} EditDistanceBounds(a: string, b: string)
    ensures EditDistance(a, b) >= |a| - |b| && EditDistance(a, b) >= |b| - |a|
    ensures EditDistance(a, b) <= if |a| >= |b| then |a| else |b|
    decreases |a| + |b|
  {
    if |a| > 0 && |b| > 0 {
      EditDistanceBounds(a[..|a| - 1], b[..|b| - 1]);
      EditDistanceBounds(a[..|a| - 1], b);
      EditDistanceBounds(a, b[..|b| - 1]);
    }
  }

  /** The recurrence on the prefixes `a[..j]` and `b[..i]` that one cell of the matrix follows. */
  lemma EditDistanceOfPrefixes(a: string, b: string, i: nat, j: nat)
    requires 1 <= i <= |b| && 1 <= j <= |a|
    ensures EditDistance(a[..j], b[..i]) ==
      if b[i - 1] == a[j - 1] then EditDistance(a[..j - 1], b[..i - 1])
      else 1 + Min(EditDistance(a[..j - 1], b[..i - 1]),
                   Min(EditDistance(a[..j - 1], b[..i]), EditDistance(a[..j], b[..i - 1])))
  {
    assert a[..j][..j - 1] == a[..j - 1] && b[..i][..i - 1] == b[..i - 1];
  }

  /** Row `i` of the distance matrix, each cell from its left, upper and upper-left neighbours. */
  method FillRow(matrix: array2<nat>, a: string, b: string, i: nat)
    requires matrix.Length0 == |b| + 1 && matrix.Length1 == |a| + 1 && 1 <= i <= |b|
    requires forall l :: 0 <= l <= |a| ==> matrix[i - 1, l] == EditDistance(a[..l], b[..i - 1])
    requires matrix[i, 0] == i
    modifies matrix
    ensures forall l :: 0 <= l <= |a| ==> matrix[i, l] == EditDistance(a[..l], b[..i])
    ensures forall k, l :: 0 <= k <= |b| && 0 <= l <= |a| && k != i ==> matrix[k, l] == old(matrix[k, l])
  {
    for j := 1 to |a| + 1
      invariant forall l :: 0 <= l < j ==> matrix[i, l] == EditDistance(a[..l], b[..i])
      invariant forall k, l :: 0 <= k <= |b| && 0 <= l <= |a| && k != i ==> matrix[k, l] == old(matrix[k, l])
    {
      EditDistanceOfPrefixes(a, b, i, j);
      if b[i - 1] == a[j - 1] {
        matrix[i, j] := matrix[i - 1, j - 1];
      } else {
        matrix[i, j] := Min(matrix[i - 1, j - 1] + 1, Min(matrix[i, j - 1] + 1, matrix[i - 1, j] + 1));
      }
    }
  }

  /** `levenshtein`: fills the (|b|+1) by (|a|+1) distance matrix row by row. */
  method Levenshtein(a: string, b: string) returns (d: nat)
    ensures d == EditDistance(a, b)
  {
    var matrix := new nat[|b| + 1, |a| + 1];
    for i := 0 to |b| + 1
      invariant forall k :: 0 <= k < i ==> matrix[k, 0] == k
    {
      matrix[i, 0] := i;
    }
    for j := 0 to |a| + 1
      invariant forall l :: 0 <= l < j ==> matrix[0, l] == l
      invariant forall k :: 0 <= k <= |b| ==> matrix[k, 0] == k
    {
      matrix[0, j] := j;
    }
    for i := 1 to |b| + 1
      invariant forall l :: 0 <= l <= |a| ==> matrix[i - 1, l] == EditDistance(a[..l], b[..i - 1])
      invariant forall k :: i <= k <= |b| ==> matrix[k, 0] == k
    {
      FillRow(matrix, a, b, i);
    }
    assert a[..|a|] == a && b[..|b|] == b;
    d := matrix[|b|, |a|];
  }

  /** The in-memory card store of the learning service. */
  class LearningService {
    var db: seq<Card>

    ghost predicate Valid()
      reads this
    {
      forall i :: 0 <= i < |db| ==> WellFormed(db[i])
    }

    /** Seeds every word with the default learning state, due at `now`, keeping the words' order. */
    constructor (initialData: seq<WordData>, now: int)
      ensures Valid()
      ensures |db| == |initialData|
      ensures forall i :: 0 <= i < |db| ==>
        var w := initialData[i];
        db[i] == Card(w.id, w.english, w.vietnamese, w.frequencyRank, true, 0, 0, DEFAULT_EASE_FACTOR, now)
    {
      db := seq(|initialData|, i requires 0 <= i < |initialData| =>
        var w := initialData[i];
        Card(w.id, w.english, w.vietnamese, w.frequencyRank, true, 0, 0, DEFAULT_EASE_FACTOR, now));
    }

    /**
     * `getNextCard`, evaluated on the current store: the first overdue review with the least
     * due date, otherwise the first new card with the least frequency rank, otherwise nothing.
     */
    function GetNextCard(now: int): (r: Option<Card>)
      reads this
      ensures r.Some? ==> r.value in db
      ensures (exists i :: 0 <= i < |db| && IsOverdueReview(db[i], now)) ==>
        && r.Some? && IsOverdueReview(r.value, now)
        && (forall c :: c in db && IsOverdueReview(c, now) ==> r.value.dueDate <= c.dueDate)
        && (exists i :: 0 <= i < |db| && db[i] == r.value
              && forall j :: 0 <= j < i && IsOverdueReview(db[j], now) ==> db[j].dueDate > db[i].dueDate)
      ensures (forall i :: 0 <= i < |db| ==> !IsOverdueReview(db[i], now)) ==>
        && (r.None? <==> forall i :: 0 <= i < |db| ==> !db[i].isNew)
        && (r.Some? ==> r.value.isNew && forall c :: c in db && c.isNew ==> r.value.frequencyRank <= c.frequencyRank)
        && (r.Some? ==>
              exists i :: 0 <= i < |db| && db[i] == r.value
                && forall j :: 0 <= j < i && db[j].isNew ==> db[j].frequencyRank > db[i].frequencyRank)
    {
      NextCard(db, now)
    }

    /**
     * `submitReview`: grades the answer, runs the scheduler on the first card with that id and
     * overwrites that one entry; an unknown id is an error and leaves the store as it was.
     */
    method SubmitReview(cardId: string, userInput: string, f: CharFolding, now: int)
      returns (r: Result<Submission, string>)
      requires Valid()
      modifies this
      ensures Valid()
      ensures FindIndex(old(db), cardId).None? ==> r == Failure(CARD_NOT_FOUND) && db == old(db)
      ensures FindIndex(old(db), cardId).Some? ==>
        var i := FindIndex(old(db), cardId).value;
        var card := old(db)[i];
        var grade := SubmitGrade(f, userInput, card.vietnamese);
        var updates := CalculateNextReview(card, grade, now);
        && db == old(db)[i := WithSrs(card, updates, false)]
        && r == Success(Submission(grade == Perfect, updates.interval))
    {
      var cardIndex := FindIndex(db, cardId);
      if cardIndex.None? {
        return Failure(CARD_NOT_FOUND);
      }
      var card := db[cardIndex.value];
      var isCorrect := LowerCase(f, Trim(userInput)) == LowerCase(f, card.vietnamese);
      var grade := if isCorrect then Perfect else Fail;
      var updates := CalculateNextReview(card, grade, now);
      NextReviewKeepsWellFormed(card, grade, now);
      db := db[cardIndex.value := WithSrs(card, updates, false)];
      r := Success(Submission(isCorrect, updates.interval));
    }

    /** `checkTypo`: a near miss is a non-zero distance of at most one edit per five target characters, plus one. */
    method CheckTypo(target: string, input: string) returns (typo: bool)
      ensures typo <==> 0 < EditDistance(target, input) <= |target| / 5 + 1
      ensures typo ==> target != input
    {
      var distance := Levenshtein(target, input);
      var threshold := |target| / 5 + 1;
      typo := distance <= threshold && distance > 0;
      EditDistanceZeroIffEqual(target, input);
    }
  }
}
