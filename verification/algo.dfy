/**
 * The earlier command-line scheduler (src/algo.ts): a normaliser without the `đ` fold and a
 * two-grade SM-2 variant.
 */
module Algo {
  import opened Text
  import opened Cards
  import Logic

  /** The two grades of this variant, with their SM-2 quality values. */
  datatype ReviewGrade = Fail | Pass {
    function Value(): int {
      match this
      case Fail => 1
      case Pass => 4
    }
  }

  /** Lowercase, decompose, drop the combining diacritical marks, trim; `đ` is kept. */
  function NormalizeText(f: CharFolding, text: string): (r: string)
    ensures forall i :: 0 <= i < |r| ==> !IsCombiningMark(r[i])
    ensures IsTrimmed(r)
    ensures text == [] ==> r == []
  {
    var m := Unaccented(f, text);
    assert forall c :: c in m ==> !IsCombiningMark(c);
    Trim(m)
  }

  /** A combining mark typed anywhere in an answer does not change its normal form. */
  lemma MarkIgnored(f: CharFolding, u: string, m: char, v: string)
    requires IsCombiningMark(m) && f.lower(m) == m && f.decompose(m) == [m]
    ensures NormalizeText(f, u + [m] + v) == NormalizeText(f, u + v)
  {
    UnaccentedDropsMark(f, u, m, v);
    SameUnaccentedSameNormal(f, u + [m] + v, u + v);
  }

  /** The normal form depends on an answer only through its unaccented form. */
  lemma SameUnaccentedSameNormal(f: CharFolding, a: string, b: string)
    requires Unaccented(f, a) == Unaccented(f, b)
    ensures NormalizeText(f, a) == NormalizeText(f, b)
  {
  }

  /**
   * An accented letter matches its base letter: when the lowercase of `x` decomposes into that
   * of `y` followed by combining marks (`à` and `a`), typing either one gives the same normal form.
   */
  lemma AccentIgnored(f: CharFolding, u: string, x: char, y: char, marks: string, v: string)
    requires f.decompose(f.lower(x)) == f.decompose(f.lower(y)) + marks
    requires forall k :: 0 <= k < |marks| ==> IsCombiningMark(marks[k])
    ensures NormalizeText(f, u + [x] + v) == NormalizeText(f, u + [y] + v)
  {
    UnaccentedAppend(f, u + [x], v);
    UnaccentedAppend(f, u, [x]);
    UnaccentedAppend(f, u + [y], v);
    UnaccentedAppend(f, u, [y]);
    UnaccentedAccent(f, x, y, marks);
    SameUnaccentedSameNormal(f, u + [x] + v, u + [y] + v);
  }

  /**
   * Letters are kept: a character that lowercasing and decomposition leave alone, that is not
   * a mark and not whitespace, appears in the normal form of any answer containing it; `đ` is one.
   */
  lemma LetterKept(f: CharFolding, u: string, x: char, v: string)
    requires f.lower(x) == x && f.decompose(x) == [x] && !IsCombiningMark(x) && !IsJsWhitespace(x)
    ensures x in NormalizeText(f, u + [x] + v)
  {
    UnaccentedAppend(f, u + [x], v);
    UnaccentedAppend(f, u, [x]);
    UnaccentedKeeps(f, x);
    var s := Unaccented(f, u + [x] + v);
    var k := |Unaccented(f, u)|;
    assert s[k] == x;
    NonWhitespaceSurvivesTrim(s, k);
  }

  /**
   * "chào" and "chao" have the same normal form under any tables that decompose `à` into `a`
   * and U+0300. The spellings are parameters, pinned by the requires clauses, so that the proof
   * works on them symbolically.
   */
  lemma ChaoMatches(f: CharFolding, accented: string, plain: string)
    requires f.decompose(f.lower('\U{E0}')) == f.decompose(f.lower('a')) + ['\U{300}']
    requires accented == "ch" + ['\U{E0}'] + "o"
    requires plain == "ch" + ['a'] + "o"
    ensures NormalizeText(f, accented) == NormalizeText(f, plain)
  {
    AccentIgnored(f, "ch", '\U{E0}', 'a', ['\U{300}'], "o");
  }

  /** With the sample tables, "chào" is accepted for "chao". */
  lemma SampleChao()
    ensures NormalizeText(Logic.SampleFolding(), "ch\U{E0}o") == NormalizeText(Logic.SampleFolding(), "chao")
  {
    ChaoMatches(Logic.SampleFolding(), "ch\U{E0}o", "chao");
  }

  /** Unlike the live normaliser, this one leaves `đ` in place, so "đi" and "di" do not match. */
  lemma KeepsDStroke(f: CharFolding)
    requires Coherent(f) && f.decompose(Logic.SMALL_D_STROKE) == [Logic.SMALL_D_STROKE]
    ensures NormalizeText(f, [Logic.SMALL_D_STROKE]) == [Logic.SMALL_D_STROKE]
    ensures Logic.NormalizeText(f, [Logic.SMALL_D_STROKE]) == ['d']
  {
    var d := Logic.SMALL_D_STROKE;
    assert d in f.decompose(f.lower(Logic.CAPITAL_D_STROKE));
    assert f.lower(d) == d;
    assert LowerCase(f, [d]) == [d];
    assert Decompose(f, [d]) == [d];
    assert RemoveMarks([d]) == [d];
    assert ReplaceAll([d], d, 'd') == ['d'];
    assert ReplaceAll(['d'], Logic.CAPITAL_D_STROKE, 'D') == ['d'];
    assert IsTrimmed([d]) && IsTrimmed(['d']);
    assert Trim([d]) == [d];
    assert Trim(['d']) == ['d'];
  }

  /**
   * The two-grade SM-2 step. A failure resets the repetition count and the interval and makes
   * the card due at once; a pass keeps the ease (the grade-4 bonus is zero, only the 1.3 floor
   * applies) and steps the interval 1, 6, then interval times ease.
   */
  function CalculateNextReview(card: Card, grade: ReviewGrade, now: int): (r: Srs)
    ensures grade == Fail ==> r == Srs(0, 0, card.easeFactor, now)
    ensures grade == Pass ==>
      && r.easeFactor >= MIN_EASE_FACTOR && r.easeFactor >= card.easeFactor
      && (card.easeFactor >= MIN_EASE_FACTOR ==> r.easeFactor == card.easeFactor)
      && (card.easeFactor < MIN_EASE_FACTOR ==> r.easeFactor == MIN_EASE_FACTOR)
      && (card.repetition == 0 ==> r.interval == 1)
      && (card.repetition == 1 ==> r.interval == 6)
      && (card.repetition != 0 && card.repetition != 1 ==>
            r.interval == Round(card.interval as real * r.easeFactor))
      && r.repetition == card.repetition + 1
      && r.dueDate == now + r.interval * MS_PER_DAY
  {
    if grade == Fail then
      Srs(0, 0, card.easeFactor, now)
    else
      var newEaseFactor := AtLeastMinEase(card.easeFactor + EaseDelta(grade.Value()));
      var interval :=
        if card.repetition == 0 then 1
        else if card.repetition == 1 then 6
        else Round(card.interval as real * newEaseFactor);
      Srs(card.repetition + 1, interval, newEaseFactor, now + interval * MS_PER_DAY)
  }

  /**
   * Two passes in a row from a fresh card give intervals of one and then six days, and keep
   * a valid ease unchanged.
   */
  lemma FirstTwoPasses(card: Card, now1: int, now2: int)
    requires card.repetition == 0 && card.easeFactor >= MIN_EASE_FACTOR
    ensures var s1 := CalculateNextReview(card, Pass, now1);
      var s2 := CalculateNextReview(WithSrs(card, s1, false), Pass, now2);
      s1.interval == 1 && s2.interval == 6 && s2.repetition == 2 && s2.easeFactor == card.easeFactor
  {
  }
}
