/**
 * String operations of the JavaScript runtime that the trainer relies on:
 * `trim`, `toLowerCase`, `normalize("NFD")` and global single-character `replace`.
 * Strings are sequences of Unicode scalar values.
 */
module Text {

  /** The code points `String.prototype.trim` removes: ECMAScript WhiteSpace and LineTerminator. */
  predicate IsJsWhitespace(c: char) {
    c == '\t' || c == '\n' || c == '\U{B}' || c == '\U{C}' || c == '\r' || c == ' '
    || c == '\U{A0}' || c == '\U{1680}' || ('\U{2000}' <= c <= '\U{200A}')
    || c == '\U{2028}' || c == '\U{2029}' || c == '\U{202F}' || c == '\U{205F}'
    || c == '\U{3000}' || c == '\U{FEFF}'
  }

  /** A string with no whitespace at either end. */
  predicate IsTrimmed(s: string) {
    s == [] || (!IsJsWhitespace(s[0]) && !IsJsWhitespace(s[|s| - 1]))
  }

  /** Drops leading whitespace: the result is the suffix of `s` after its whitespace run. */
  function TrimStart(s: string): (r: string)
    ensures |r| <= |s| && forall i :: 0 <= i < |r| ==> r[i] == s[|s| - |r| + i]
    ensures r != [] ==> !IsJsWhitespace(r[0])
    ensures forall i :: 0 <= i < |s| - |r| ==> IsJsWhitespace(s[i])
  {
    if s != [] && IsJsWhitespace(s[0]) then TrimStart(s[1..]) else s
  }

  /** Drops trailing whitespace: the result is the prefix of `s` before its whitespace run. */
  function TrimEnd(s: string): (r: string)
    ensures |r| <= |s| && forall i :: 0 <= i < |r| ==> r[i] == s[i]
    ensures r != [] ==> !IsJsWhitespace(r[|r| - 1])
    ensures forall i :: |r| <= i < |s| ==> IsJsWhitespace(s[i])
  {
    if s != [] && IsJsWhitespace(s[|s| - 1]) then TrimEnd(s[..|s| - 1]) else s
  }

  /** `String.prototype.trim`: `s` without its leading and trailing whitespace runs. */
  function Trim(s: string): (r: string)
    ensures IsTrimmed(r)
    ensures forall c :: c in r ==> c in s
    ensures IsTrimmed(s) ==> r == s
  {
    TrimmedAtBothEnds(s);
    TrimKeepsCharacters(s);
    TrimOfTrimmed(s);
    TrimEnd(TrimStart(s))
  }

  lemma TrimmedAtBothEnds(s: string)
    ensures IsTrimmed(TrimEnd(TrimStart(s)))
  {
    var t := TrimStart(s);
    var r := TrimEnd(t);
    if r != [] {
      assert r[0] == t[0];
    }
  }

  /** Only a blank string trims to nothing. */
  lemma TrimEmptyIffBlank(s: string)
    ensures Trim(s) == [] <==> forall i :: 0 <= i < |s| ==> IsJsWhitespace(s[i])
  {
    var t := TrimStart(s);
    var r := TrimEnd(t);
    if r != [] {
      assert r[0] == t[0];
      assert !IsJsWhitespace(s[|s| - |t|]);
    }
  }

  lemma TrimKeepsCharacters(s: string)
    ensures forall c :: c in TrimEnd(TrimStart(s)) ==> c in s
  {
    var t := TrimStart(s);
    var r := TrimEnd(t);
    forall i | 0 <= i < |r|
      ensures r[i] in s
    {
      assert r[i] == t[i] == s[|s| - |t| + i];
    }
  }

  lemma TrimOfTrimmed(s: string)
    ensures IsTrimmed(s) ==> TrimEnd(TrimStart(s)) == s
  {
    var t := TrimStart(s);
    var r := TrimEnd(t);
    if IsTrimmed(s) && s != [] {
      assert |t| == |s|;
      assert t == s by {
        forall i | 0 <= i < |s|
          ensures t[i] == s[i]
        {
        }
      }
      assert |r| == |t|;
      assert r == t by {
        forall i | 0 <= i < |t|
          ensures r[i] == t[i]
        {
        }
      }
    }
  }

  /** Trim's result is the slice of `s` between its leading and its trailing whitespace runs. */
  lemma {:induction false} TrimStartAfterWhitespace(w: string, y: string)
    requires forall k :: 0 <= k < |w| ==> IsJsWhitespace(w[k])
    ensures TrimStart(w + y) == TrimStart(y)
  {
    if w == [] {
      assert w + y == y;
    } else {
      assert (w + y)[1..] == w[1..] + y;
      TrimStartAfterWhitespace(w[1..], y);
    }
  }

  lemma {:induction false} TrimEndBeforeWhitespace(y: string, w: string)
    requires forall k :: 0 <= k < |w| ==> IsJsWhitespace(w[k])
    ensures TrimEnd(y + w) == TrimEnd(y)
  {
    if w == [] {
      assert y + w == y;
    } else {
      var w' := w[..|w| - 1];
      assert (y + w)[..|y + w| - 1] == y + w';
      TrimEndBeforeWhitespace(y, w');
    }
  }

  /** Text appended after a string that is not blank survives TrimStart untouched. */
  lemma {:induction false} TrimStartAppend(x: string, w: string)
    ensures TrimStart(x) != [] ==> TrimStart(x + w) == TrimStart(x) + w
    ensures TrimStart(x) == [] ==> TrimStart(x + w) == TrimStart(w)
  {
    if x == [] {
      assert x + w == w;
    } else if IsJsWhitespace(x[0]) {
      assert (x + w)[1..] == x[1..] + w;
      TrimStartAppend(x[1..], w);
    }
  }

  /** Whitespace around a string never changes what `trim` returns. */
  lemma TrimIgnoresSurroundingWhitespace(w1: string, x: string, w2: string)
    requires forall k :: 0 <= k < |w1| ==> IsJsWhitespace(w1[k])
    requires forall k :: 0 <= k < |w2| ==> IsJsWhitespace(w2[k])
    ensures Trim(w1 + x + w2) == Trim(x)
  {
    assert w1 + x + w2 == w1 + (x + w2);
    TrimStartAfterWhitespace(w1, x + w2);
    TrimStartAppend(x, w2);
    if TrimStart(x) != [] {
      TrimEndBeforeWhitespace(TrimStart(x), w2);
    } else {
      TrimStartAfterWhitespace(w2, []);
      assert w2 + [] == w2;
    }
  }

  /** A character that is not whitespace survives `trim`. */
  lemma NonWhitespaceSurvivesTrim(s: string, k: nat)
    requires k < |s| && !IsJsWhitespace(s[k])
    ensures s[k] in Trim(s)
  {
    var t := TrimStart(s);
    var r := TrimEnd(t);
    var k' := k - (|s| - |t|);
    assert t[k'] == s[k];
    assert r[k'] == t[k'];
  }

  /** The character-level behaviour of `toLowerCase` and of Unicode canonical decomposition (NFD). */
  datatype CharFolding = CharFolding(lower: char -> char, decompose: char -> seq<char>)

  /**
   * The facts about lowercasing and decomposition that the answer normaliser needs:
   * decomposing a lowercased letter yields characters that are already lowercase and fully decomposed,
   * `d` is left alone by both, and `Đ` lowercases to `đ`.
   */
  ghost predicate Coherent(f: CharFolding) {
    && (forall c, x :: x in f.decompose(f.lower(c)) ==> f.lower(x) == x && f.decompose(x) == [x])
    && f.lower('d') == 'd' && f.decompose('d') == ['d']
    && f.lower('\U{110}') == '\U{111}'
  }

  /** `toLowerCase`, applied code point by code point. */
  function LowerCase(f: CharFolding, s: string): (r: string)
    ensures |r| == |s|
    ensures forall i :: 0 <= i < |s| ==> r[i] == f.lower(s[i])
  {
    if s == [] then [] else [f.lower(s[0])] + LowerCase(f, s[1..])
  }

  /** `normalize("NFD")`: every code point replaced by its canonical decomposition. */
  function Decompose(f: CharFolding, s: string): (r: string)
    ensures s == [] ==> r == []
  {
    if s == [] then [] else f.decompose(s[0]) + Decompose(f, s[1..])
  }

  /** A code point in the Combining Diacritical Marks block, U+0300 to U+036F. */
  predicate IsCombiningMark(c: char) {
    '\U{300}' <= c <= '\U{36F}'
  }

  /** `replace(/[\u0300-\u036f]/g, "")`: deletes every combining mark and keeps the rest in order. */
  function RemoveMarks(s: string): (r: string)
    ensures forall c :: c in r ==> c in s && !IsCombiningMark(c)
    ensures (forall i :: 0 <= i < |s| ==> !IsCombiningMark(s[i])) ==> r == s
  {
    if s == [] then []
    else if IsCombiningMark(s[0]) then RemoveMarks(s[1..])
    else [s[0]] + RemoveMarks(s[1..])
  }

  /** `replace(/x/g, y)` for a single character `x`: every `x` becomes `y`, nothing else changes. */
  function ReplaceAll(s: string, x: char, y: char): (r: string)
    ensures |r| == |s|
    ensures forall i :: 0 <= i < |s| ==> r[i] == if s[i] == x then y else s[i]
  {
    if s == [] then [] else [if s[0] == x then y else s[0]] + ReplaceAll(s[1..], x, y)
  }

  lemma LowerCaseAppend(f: CharFolding, u: string, v: string)
    ensures LowerCase(f, u + v) == LowerCase(f, u) + LowerCase(f, v)
  {
  }

  lemma {:induction false} DecomposeAppend(f: CharFolding, u: string, v: string)
    ensures Decompose(f, u + v) == Decompose(f, u) + Decompose(f, v)
  {
    if u == [] {
      assert u + v == v;
    } else {
      assert (u + v)[1..] == u[1..] + v;
      DecomposeAppend(f, u[1..], v);
    }
  }

  lemma {:induction false} RemoveMarksAppend(u: string, v: string)
    ensures RemoveMarks(u + v) == RemoveMarks(u) + RemoveMarks(v)
  {
    if u == [] {
      assert u + v == v;
    } else {
      assert (u + v)[1..] == u[1..] + v;
      RemoveMarksAppend(u[1..], v);
    }
  }

  /**
   * Mark removal works character by character: around any character `c` the two sides are
   * cleaned on their own, and `c` is dropped if it is a combining mark and kept in place otherwise.
   */
  lemma RemoveMarksAround(u: string, c: char, v: string)
    ensures RemoveMarks(u + [c] + v) == RemoveMarks(u) + (if IsCombiningMark(c) then [] else [c]) + RemoveMarks(v)
  {
    RemoveMarksAppend(u + [c], v);
    RemoveMarksAppend(u, [c]);
  }

  lemma ReplaceAllAppend(u: string, v: string, x: char, y: char)
    ensures ReplaceAll(u + v, x, y) == ReplaceAll(u, x, y) + ReplaceAll(v, x, y)
  {
  }

  /**
   * Lowercasing, decomposing and dropping the combining marks: the part of answer
   * normalisation that removes accents.
   */
  function Unaccented(f: CharFolding, s: string): string {
    RemoveMarks(Decompose(f, LowerCase(f, s)))
  }

  /** Accent removal works character by character, so it distributes over concatenation. */
  lemma UnaccentedAppend(f: CharFolding, u: string, v: string)
    ensures Unaccented(f, u + v) == Unaccented(f, u) + Unaccented(f, v)
  {
    LowerCaseAppend(f, u, v);
    DecomposeAppend(f, LowerCase(f, u), LowerCase(f, v));
    RemoveMarksAppend(Decompose(f, LowerCase(f, u)), Decompose(f, LowerCase(f, v)));
  }

  /**
   * A character whose lowercase decomposes into that of `y` followed by combining marks loses
   * its accent: it is stripped to what `y` is stripped to (`ả` to `a`).
   */
  lemma UnaccentedAccent(f: CharFolding, x: char, y: char, marks: string)
    requires f.decompose(f.lower(x)) == f.decompose(f.lower(y)) + marks
    requires forall k :: 0 <= k < |marks| ==> IsCombiningMark(marks[k])
    ensures Unaccented(f, [x]) == Unaccented(f, [y])
  {
    assert LowerCase(f, [x]) == [f.lower(x)] && LowerCase(f, [y]) == [f.lower(y)];
    assert Decompose(f, [f.lower(x)]) == f.decompose(f.lower(x));
    assert Decompose(f, [f.lower(y)]) == f.decompose(f.lower(y));
    RemoveMarksAppend(f.decompose(f.lower(y)), marks);
    AllMarksRemoved(marks);
  }

  lemma {:induction false} AllMarksRemoved(marks: string)
    requires forall k :: 0 <= k < |marks| ==> IsCombiningMark(marks[k])
    ensures RemoveMarks(marks) == []
  {
    if marks != [] {
      AllMarksRemoved(marks[1..]);
    }
  }

  /** A combining mark that the tables leave alone is deleted. */
  lemma UnaccentedMark(f: CharFolding, m: char)
    requires IsCombiningMark(m) && f.lower(m) == m && f.decompose(m) == [m]
    ensures Unaccented(f, [m]) == []
  {
    assert LowerCase(f, [m]) == [m];
    assert Decompose(f, [m]) == [m];
  }

  /** A combining mark that the tables leave alone disappears wherever it stands. */
  lemma UnaccentedDropsMark(f: CharFolding, u: string, m: char, v: string)
    requires IsCombiningMark(m) && f.lower(m) == m && f.decompose(m) == [m]
    ensures Unaccented(f, u + [m] + v) == Unaccented(f, u + v)
  {
    UnaccentedAppend(f, u + [m], v);
    UnaccentedAppend(f, u, [m]);
    UnaccentedAppend(f, u, v);
    UnaccentedMark(f, m);
  }

  /** A character that lowercasing and decomposition leave alone and that is not a mark is kept. */
  lemma UnaccentedKeeps(f: CharFolding, x: char)
    requires f.lower(x) == x && f.decompose(x) == [x] && !IsCombiningMark(x)
    ensures Unaccented(f, [x]) == [x]
  {
    assert LowerCase(f, [x]) == [x];
    assert Decompose(f, [x]) == [x];
  }
}
