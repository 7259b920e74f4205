/**
 * The live answer normaliser and review scheduler (src/logic.ts), the pair the server uses.
 */
module Logic {
  import opened Text
  import opened Cards

  /** A failed card is due again ten minutes after the review. */
  const RELEARN_DELAY_MS: int := 10 * MS_PER_MINUTE

  const SMALL_D_STROKE: char := '\U{111}'    // đ
  const CAPITAL_D_STROKE: char := '\U{110}'  // Đ

  /**
   * The text after lowercasing, decomposition, mark removal and the `đ` fold,
   * just before the `Đ` fold and the trim.
   */
  function FoldedBeforeCapital(f: CharFolding, text: string): string {
    ReplaceAll(Unaccented(f, text), SMALL_D_STROKE, 'd')
  }

  /**
   * Canonical form of an answer for accent-insensitive comparison: lowercase, decompose,
   * drop the combining diacritical marks, fold `đ` and `Đ` to `d` and `D`, trim.
   */
  function NormalizeText(f: CharFolding, text: string): (r: string)
    ensures forall i :: 0 <= i < |r| ==> !IsCombiningMark(r[i])
    ensures SMALL_D_STROKE !in r && CAPITAL_D_STROKE !in r
    ensures IsTrimmed(r)
    ensures text == [] ==> r == []
  {
    var m := Unaccented(f, text);
    var d := ReplaceAll(m, SMALL_D_STROKE, 'd');
    assert forall i :: 0 <= i < |d| ==> d[i] != SMALL_D_STROKE && !IsCombiningMark(d[i]) by {
      forall i | 0 <= i < |d| ensures d[i] != SMALL_D_STROKE && !IsCombiningMark(d[i]) {
        assert m[i] in m;
      }
    }
    var e := ReplaceAll(d, CAPITAL_D_STROKE, 'D');
    assert forall c :: c in e ==> c != SMALL_D_STROKE && c != CAPITAL_D_STROKE && !IsCombiningMark(c);
    Trim(e)
  }

  /** Every character of a lowercased-then-decomposed string is lowercase and fully decomposed. */
  lemma {:induction false} DecomposedLowerIsStable(f: CharFolding, s: string)
    requires Coherent(f)
    ensures forall x :: x in Decompose(f, LowerCase(f, s)) ==> f.lower(x) == x && f.decompose(x) == [x]
  {
    if s != [] {
      var l := LowerCase(f, s);
      assert l[0] == f.lower(s[0]) && l[1..] == LowerCase(f, s[1..]);
      DecomposedLowerIsStable(f, s[1..]);
    }
  }

  /** A character that no step of NormalizeText changes. */
  predicate Settled(f: CharFolding, x: char) {
    f.lower(x) == x && f.decompose(x) == [x] && !IsCombiningMark(x)
    && x != SMALL_D_STROKE && x != CAPITAL_D_STROKE
  }

  /** The `Đ` replacement never fires: lowercasing has already turned every `Đ` into `đ`, which the `đ` step removed. */
  lemma CapitalDStrokeNeverReached(f: CharFolding, text: string)
    requires Coherent(f)
    ensures forall x :: x in FoldedBeforeCapital(f, text) ==> Settled(f, x)
    ensures CAPITAL_D_STROKE !in FoldedBeforeCapital(f, text)
    ensures NormalizeText(f, text) == Trim(FoldedBeforeCapital(f, text))
  {
    DecomposedLowerIsStable(f, text);
    var s := FoldedBeforeCapital(f, text);
    var m := Unaccented(f, text);
    forall i | 0 <= i < |s| ensures Settled(f, s[i]) {
      assert m[i] in m;
    }
    assert ReplaceAll(s, CAPITAL_D_STROKE, 'D') == s;
  }

  lemma {:induction false} SettledDecomposeFixed(f: CharFolding, t: string)
    requires forall x :: x in t ==> Settled(f, x)
    ensures Decompose(f, t) == t
  {
    if t != [] {
      assert t[0] in t;
      assert forall x :: x in t[1..] ==> x in t;
      SettledDecomposeFixed(f, t[1..]);
    }
  }

  /** A trimmed string of settled characters is its own normal form. */
  lemma SettledIsNormal(f: CharFolding, t: string)
    requires forall x :: x in t ==> Settled(f, x)
    requires IsTrimmed(t)
    ensures NormalizeText(f, t) == t
  {
    forall i | 0 <= i < |t| ensures Settled(f, t[i]) {
      assert t[i] in t;
    }
    assert LowerCase(f, t) == t;
    SettledDecomposeFixed(f, t);
    assert RemoveMarks(t) == t;
    assert ReplaceAll(t, SMALL_D_STROKE, 'd') == t;
    assert ReplaceAll(t, CAPITAL_D_STROKE, 'D') == t;
  }

  /** Normalising an already normalised answer changes nothing. */
  lemma NormalizeIdempotent(f: CharFolding, text: string)
    requires Coherent(f)
    ensures NormalizeText(f, NormalizeText(f, text)) == NormalizeText(f, text)
  {
    CapitalDStrokeNeverReached(f, text);
    SettledIsNormal(f, NormalizeText(f, text));
  }

  /** Everything before the `Đ` fold and the trim works character by character. */
  lemma FoldedAppend(f: CharFolding, u: string, v: string)
    ensures FoldedBeforeCapital(f, u + v) == FoldedBeforeCapital(f, u) + FoldedBeforeCapital(f, v)
  {
    UnaccentedAppend(f, u, v);
    ReplaceAllAppend(Unaccented(f, u), Unaccented(f, v), SMALL_D_STROKE, 'd');
  }

  /** A combining mark typed anywhere in an answer does not change its normal form. */
  lemma MarkIgnored(f: CharFolding, u: string, m: char, v: string)
    requires IsCombiningMark(m) && f.lower(m) == m && f.decompose(m) == [m]
    ensures NormalizeText(f, u + [m] + v) == NormalizeText(f, u + v)
  {
    UnaccentedDropsMark(f, u, m, v);
    SameUnaccentedSameNormal(f, u + [m] + v, u + v);
  }

  /** The normal form depends on an answer only through its unaccented form. */
  lemma SameUnaccentedSameNormal(f: CharFolding, a: string, b: string)
    requires Unaccented(f, a) == Unaccented(f, b)
    ensures NormalizeText(f, a) == NormalizeText(f, b)
  {
  }

  /**
   * An accented letter matches its base letter: when the lowercase of `x` decomposes into that
   * of `y` followed by combining marks (`ả` and `a`, `Ơ` and `o`), typing either one anywhere in
   * an answer gives the same normal form.
   */
  lemma AccentIgnored(f: CharFolding, u: string, x: char, y: char, marks: string, v: string)
    requires f.decompose(f.lower(x)) == f.decompose(f.lower(y)) + marks
    requires forall k :: 0 <= k < |marks| ==> IsCombiningMark(marks[k])
    ensures NormalizeText(f, u + [x] + v) == NormalizeText(f, u + [y] + v)
  {
    UnaccentedAppend(f, u + [x], v);
    UnaccentedAppend(f, u, [x]);
    UnaccentedAppend(f, u + [y], v);
    UnaccentedAppend(f, u, [y]);
    UnaccentedAccent(f, x, y, marks);
    SameUnaccentedSameNormal(f, u + [x] + v, u + [y] + v);
  }

  /**
   * Letters are kept: a character that no step changes and that is not whitespace appears in
   * the normal form of any answer that contains it.
   */
  lemma LetterKept(f: CharFolding, u: string, x: char, v: string)
    requires Settled(f, x) && !IsJsWhitespace(x)
    ensures x in NormalizeText(f, u + [x] + v)
  {
    FoldedAppend(f, u + [x], v);
    FoldedAppend(f, u, [x]);
    UnaccentedKeeps(f, x);
    var s := FoldedBeforeCapital(f, u + [x] + v);
    var k := |FoldedBeforeCapital(f, u)|;
    assert s[k] == x;
    var e := ReplaceAll(s, CAPITAL_D_STROKE, 'D');
    assert e[k] == x;
    NonWhitespaceSurvivesTrim(e, k);
  }

  /**
   * A fragment of the Unicode tables: ASCII capitals and `Đ` lowercase, `ả` (U+1EA3), `ơ`
   * (U+01A1) and `à` (U+00E0) decompose into a base letter and a combining mark. It shows that the
   * assumptions of Coherent can be met together.
   */
  function SampleFolding(): CharFolding {
    CharFolding(
      c => if 'A' <= c <= 'Z' then (c as int + 32) as char else if c == CAPITAL_D_STROKE then SMALL_D_STROKE else c,
      c => if c == '\U{1EA3}' then ['a', '\U{309}'] else if c == '\U{1A1}' then ['o', '\U{31B}']
           else if c == '\U{E0}' then ['a', '\U{300}'] else [c])
  }

  /** The sample fragment meets the assumptions the normaliser's lemmas rely on. */
  lemma SampleIsCoherent()
    ensures Coherent(SampleFolding())
  {
    var f := SampleFolding();
    forall c, x | x in f.decompose(f.lower(c)) ensures f.lower(x) == x && f.decompose(x) == [x] {
      var y := f.lower(c);
      assert !('A' <= y <= 'Z') && y != CAPITAL_D_STROKE;
      if y == '\U{1EA3}' {
        assert x == 'a' || x == '\U{309}';
      } else if y == '\U{1A1}' {
        assert x == 'o' || x == '\U{31B}';
      } else if y == '\U{E0}' {
        assert x == 'a' || x == '\U{300}';
      } else {
        assert x == y;
      }
    }
  }

  /**
   * "Cảm ơn" and "Cam on" have the same normal form under any tables that decompose `ả` into
   * `a` and U+0309 and `ơ` into `o` and U+031B. The three spellings are parameters, pinned by
   * the requires clauses, so that the proof works on them symbolically.
   */
  lemma CamOnMatches(f: CharFolding, accented: string, half: string, plain: string)
    requires f.decompose(f.lower('\U{1EA3}')) == f.decompose(f.lower('a')) + ['\U{309}']
    requires f.decompose(f.lower('\U{1A1}')) == f.decompose(f.lower('o')) + ['\U{31B}']
    requires accented == "C" + ['\U{1EA3}'] + "m \U{1A1}n"
    requires half == "C" + ['a'] + "m \U{1A1}n" && half == "Cam " + ['\U{1A1}'] + "n"
    requires plain == "Cam " + ['o'] + "n"
    ensures NormalizeText(f, accented) == NormalizeText(f, plain)
  {
    AccentIgnored(f, "C", '\U{1EA3}', 'a', ['\U{309}'], "m \U{1A1}n");
    AccentIgnored(f, "Cam ", '\U{1A1}', 'o', ['\U{31B}'], "n");
  }

  /** With the sample tables, "Cảm ơn" is accepted for "Cam on" and the other way round. */
  lemma SampleAccentInsensitive()
    ensures NormalizeText(SampleFolding(), "C\U{1EA3}m \U{1A1}n") == NormalizeText(SampleFolding(), "Cam on")
  {
    CamOnMatches(SampleFolding(), "C\U{1EA3}m \U{1A1}n", "Cam \U{1A1}n", "Cam on");
  }

  /** The record `calculateReview` returns: new SRS metadata and the `isNew` flag. */
  datatype ReviewUpdate = ReviewUpdate(repetition: int, interval: int, easeFactor: real, dueDate: int, isNew: bool)

  /** The card with the update written over its SRS columns (`db.update(words).set(updates)`). */
  function ApplyUpdate(card: Card, u: ReviewUpdate): Card {
    WithSrs(card, Srs(u.repetition, u.interval, u.easeFactor, u.dueDate), u.isNew)
  }

  /**
   * The scheduler for a pass/fail review. A wrong or revealed answer sends the card back to
   * the learning queue (interval 0) for ten minutes; a pure recall graduates a learning card
   * to one day and multiplies a graduated interval by the ease factor.
   */
  function CalculateReview(card: Card, isCorrect: bool, revealed: bool, now: int): (r: ReviewUpdate)
    ensures !r.isNew
    ensures !isCorrect || revealed ==>
      r == ReviewUpdate(0, 0, card.easeFactor, now + RELEARN_DELAY_MS, false)
    ensures isCorrect && !revealed ==>
      && r.easeFactor >= MIN_EASE_FACTOR
      && (card.easeFactor >= MIN_EASE_FACTOR ==> r.easeFactor == card.easeFactor)
      && (card.easeFactor < MIN_EASE_FACTOR ==> r.easeFactor == MIN_EASE_FACTOR)
      && (card.interval < 1 ==> r.interval == 1)
      && (card.interval >= 1 ==> r.interval == Round(card.interval as real * r.easeFactor))
      && r.repetition == card.repetition + 1
      && r.dueDate == now + r.interval * MS_PER_DAY
  {
    if !isCorrect || revealed then
      ReviewUpdate(0, 0, card.easeFactor, now + RELEARN_DELAY_MS, false)
    else
      var newEase := AtLeastMinEase(card.easeFactor + EaseDelta(4));
      var newInterval := if card.interval >= 1 then Round(card.interval as real * newEase) else 1;
      ReviewUpdate(card.repetition + 1, newInterval, newEase, now + newInterval * MS_PER_DAY, false)
  }

  /** Revealing the answer counts as a failure whether or not the typed answer was right. */
  lemma RevealedIsFailure(card: Card, isCorrect: bool, now: int)
    ensures CalculateReview(card, isCorrect, true, now) == CalculateReview(card, false, false, now)
  {
  }

  /** The state the live scheduler keeps on every card. */
  predicate WellFormed(c: Card) {
    && c.repetition >= 0 && c.interval >= 0 && c.easeFactor >= MIN_EASE_FACTOR
    && (c.isNew ==> c.repetition == 0 && c.interval == 0)
  }

  lemma MulAtLeast(n: real, e: real)
    requires n >= 1.0 && e >= MIN_EASE_FACTOR
    ensures n * e >= n * MIN_EASE_FACTOR
  {
  }

  /**
   * After a review a card is in the learning queue (interval 0) exactly when the review failed;
   * a pass never shortens the interval.
   */
  lemma LearningIffFailed(card: Card, isCorrect: bool, revealed: bool, now: int)
    requires card.interval >= 0
    ensures var r := CalculateReview(card, isCorrect, revealed, now);
      && (r.interval == 0 <==> !isCorrect || revealed)
      && (isCorrect && !revealed ==> r.interval >= 1 && r.interval >= card.interval)
  {
    var r := CalculateReview(card, isCorrect, revealed, now);
    if isCorrect && !revealed && card.interval >= 1 {
      MulAtLeast(card.interval as real, r.easeFactor);
    }
  }

  /** A review keeps a well-formed card well-formed. */
  lemma ReviewKeepsWellFormed(card: Card, isCorrect: bool, revealed: bool, now: int)
    requires WellFormed(card)
    ensures WellFormed(ApplyUpdate(card, CalculateReview(card, isCorrect, revealed, now)))
  {
    LearningIffFailed(card, isCorrect, revealed, now);
  }
}
