# lingo-server scheduling core in Dafny

This is a model of the core of lingo-server, a trainer for Vietnamese vocabulary flashcards. The model covers:

- **Answer normalisation and grading.** This covers the live `normalizeText` in `src/logic.ts`, which lowercases, decomposes, strips the tone marks, folds `đ`, then trims. It also covers the older copy in `src/algo.ts`, which does not fold `đ`. Then there is the `/review` rule that an answer is correct when the two normal forms are equal. Finally there is the plainer trim-and-lowercase rule of `LearningService.submitReview`.
- **Three SM-2 style schedulers.** They are modelled separately: the live pass/fail/revealed `calculateReview` (`src/logic.ts`), the six-grade `calculateNextReview` (`src/lingvist.ts`) and the two-grade variant (`src/algo.ts`).
- **Card selection.** There are two policies:
  - The two-tier `getNextCard` of the in-memory service: the earliest-due overdue review, else the most frequent new word.
  - The three-tier `/learn` handler. It adds overwhelm protection: once five cards sit in the learning queue (reviewed, interval 0), it serves the earliest-due of them even before it is due.
- **The in-memory `LearningService`.** It is a class over `seq<Card>`. Its constructor seeds the default learning state, and `SubmitReview` overwrites exactly one entry. `CheckTypo` and the dynamic-programming `Levenshtein` matrix (an `array2`) are proved against a recursive edit-distance definition.
- **The `/review` write-back.** It is a class over a `map` from card id to card.
- **The Anki importer.** It covers `stripHtml`, the split of each note on U+001F, the record loop with its frequency ranks, and the cut into chunks of 500.

Modules:
- `Text` holds the JavaScript string operations: `trim`, `toLowerCase`, `normalize("NFD")` and global replace.
- `Cards` holds the card record, `Math.round`, the SM-2 ease formula and the "filter, sort, take the first" selection.
- `Logic`, `Algo`, `Lingvist`, `Server` and `ImportAnki` each follow one source file.

Modelling conventions:
- Timestamps are integer milliseconds, and the current time is a parameter `now`. "`n` days later" is `now + n * 86400000`.
- `easeFactor` is a `real`. `interval` is an `int`, as in the database column.
- `Math.round(x)` is `(x + 0.5).Floor`.
- `toLowerCase` and canonical decomposition are library tables. They are a parameter `CharFolding`: a lowercase map and a decomposition map on code points.
  - Lemmas that depend on these tables require `Coherent(f)`: decomposing a lowercased character yields characters that are already lowercase and fully decomposed, `d` is left alone, and `Đ` lowercases to `đ`.
  - `Logic.SampleFolding` is a small fragment of the real tables that meets these assumptions.

The code has no sub-day learning ladder: the live scheduler marks a failed card only by `interval = 0`, due ten minutes later (`src/logic.ts:29-36`), and intervals are whole days.

## Model

| member | source | states |
|---|---|---|
| Text.Trim | src/logic.ts:14 | `trim`: the result has no whitespace at either end, contains only characters of the input, and leaves an already trimmed string unchanged |
| Text.TrimIgnoresSurroundingWhitespace | src/lingvist.ts:153 | whitespace added around a string never changes what `trim` returns |
| Text.TrimEmptyIffBlank | src/import-anki.ts:65 | trimming yields the empty string exactly when every character is JavaScript whitespace |
| Text.LowerCase | src/logic.ts:9 | `toLowerCase` keeps the length and lowercases each code point in place |
| Text.Decompose | src/logic.ts:10 | `normalize("NFD")` replaces each code point by its decomposition; the empty string stays empty |
| Text.RemoveMarks | src/logic.ts:11 | the result holds no character of U+0300..U+036F and only characters of the input; a string without marks is unchanged |
| Text.RemoveMarksAround | src/logic.ts:11 | around any character both sides are cleaned on their own, and the character is dropped exactly when it is a combining mark, otherwise kept in place |
| Text.UnaccentedAppend | src/logic.ts:9-11 | lowercasing, decomposing and dropping marks work character by character: the result for `u + v` is the result for `u` followed by that for `v` |
| Text.UnaccentedDropsMark | src/logic.ts:9-11 | a combining mark that the tables leave alone disappears wherever it stands |
| Text.UnaccentedAccent | src/logic.ts:9-11 | a letter whose lowercase decomposes into another letter's plus combining marks is stripped to what that letter is stripped to |
| Text.ReplaceAll | src/logic.ts:12-13 | a global single-character replace: same length, each `x` becomes `y`, every other character is kept in place |
| Cards.Round | src/logic.ts:50 | `Math.round` returns an integer within half a unit of `x`, rounding halves up |
| Cards.EaseDelta | src/lingvist.ts:63-64 | the SM-2 ease change is +0.1 at quality 5, exactly 0 at quality 4 and -0.14 at quality 3 |
| Cards.AtLeastMinEase | src/lingvist.ts:67 | `Math.max(e, 1.3)` is at least 1.3 and at least `e`, and equals one of them |
| Cards.ArgMinBy | src/lingvist.ts:121-127 | filter, stable ascending sort, take the head: None exactly when nothing is kept; otherwise a kept position whose key is minimal, and no earlier kept card has that key |
| Logic.NormalizeText | src/logic.ts:7-15 | the normal form has no combining mark, no `đ` and no `Đ`, and no surrounding whitespace; the empty answer normalises to the empty string |
| Logic.DecomposedLowerIsStable | src/logic.ts:9-10 | given coherent tables, every character after lowercasing and decomposing is already lowercase and fully decomposed |
| Logic.CapitalDStrokeNeverReached | src/logic.ts:9-13 | the `Đ` replacement never finds anything to replace, because lowercasing already turned every `Đ` into `đ` and the `đ` step removed it; the normal form is the trimmed text after the `đ` step |
| Logic.SettledDecomposeFixed | src/logic.ts:10 | decomposing a string of already decomposed characters changes nothing |
| Logic.SettledIsNormal | src/logic.ts:7-15 | a trimmed string of characters that no step changes is its own normal form |
| Logic.NormalizeIdempotent | src/logic.ts:7-15 | given coherent tables, normalising a normal form returns it unchanged |
| Logic.SampleIsCoherent | src/logic.ts:9-10 | a fragment of the real lowercase and decomposition tables (ASCII capitals, `Đ`, `ả`, `ơ`, `à`) meets the coherence assumptions |
| Logic.MarkIgnored | src/logic.ts:6-15 | a combining mark typed anywhere in an answer does not change its normal form |
| Logic.AccentIgnored | src/logic.ts:6-15 | accents are removed: an accented letter and its base letter, typed at the same place, give the same normal form |
| Logic.LetterKept | src/logic.ts:6-15 | letters are kept: a non-whitespace character that no step changes appears in the normal form of any answer containing it |
| Logic.CamOnMatches | src/logic.ts:6-15 | with tables that decompose `ả` and `ơ`, "Cảm ơn" and "Cam on" have the same normal form |
| Logic.SampleAccentInsensitive | src/logic.ts:6-15 | with the sample tables, "Cảm ơn" and "Cam on" have the same normal form |
| Logic.CalculateReview | src/logic.ts:19-65 | a wrong or revealed answer gives repetition 0, interval 0, unchanged ease, due in 10 minutes; a pure recall gives ease `max(1.3, ease)`, interval 1 from the learning queue or `round(interval * ease)`, repetition + 1, due that many days later; `isNew` is always false |
| Logic.RevealedIsFailure | src/logic.ts:26-37 | revealing the answer gives the same update as a wrong answer, even when the typed answer was right |
| Logic.LearningIffFailed | src/logic.ts:29-53 | after a review the interval is 0 exactly when the review failed; a pass gives at least one day and never shortens the interval |
| Logic.ReviewKeepsWellFormed | src/logic.ts:19-65 | a review keeps non-negative repetition and interval, ease at least 1.3, and a new card at repetition 0 and interval 0 |
| Algo.NormalizeText | src/algo.ts:30-36 | the older normal form has no combining mark and no surrounding whitespace; the empty answer normalises to the empty string |
| Algo.MarkIgnored | src/algo.ts:29-36 | a combining mark typed anywhere in an answer does not change the older normal form |
| Algo.AccentIgnored | src/algo.ts:29-36 | an accented letter and its base letter, typed at the same place, give the same older normal form |
| Algo.LetterKept | src/algo.ts:29-36 | a non-whitespace character that the tables leave alone and that is not a mark, `đ` included, appears in the older normal form |
| Algo.ChaoMatches | src/algo.ts:29-36 | with tables that decompose `à`, "chào" and "chao" have the same older normal form |
| Algo.SampleChao | src/algo.ts:29-36 | with the sample tables, "chào" becomes what "chao" becomes |
| Algo.KeepsDStroke | src/algo.ts:30-36 | unlike the live normaliser, the older one keeps `đ`: it maps "đ" to "đ" where the live one gives "d" |
| Algo.CalculateNextReview | src/algo.ts:39-68 | FAIL gives repetition 0, interval 0, unchanged ease, due now; PASS gives ease `max(1.3, ease)`: unchanged when it was at least 1.3, else exactly 1.3, interval 1, 6 or `round(interval * ease)`, repetition + 1, due that many days later |
| Algo.FirstTwoPasses | src/algo.ts:54-56 | two passes from a fresh card give intervals 1 and then 6 and keep a valid ease |
| Lingvist.AddDays | src/lingvist.ts:87-91 | adding zero days is the same instant; adding a positive number of days moves at least one day later |
| Lingvist.AddDaysTwice | src/lingvist.ts:87-91 | adding `x` days and then `y` days is adding `x + y` days |
| Lingvist.CalculateNextReview | src/lingvist.ts:43-84 | a grade below PASS gives repetition 0, interval 1, unchanged ease, due the next day; a passing grade gives the per-grade SM-2 ease with the 1.3 floor, interval 1, 6 or `round(interval * ease)`, repetition + 1, due `interval` days later |
| Lingvist.NextReviewKeepsWellFormed | src/lingvist.ts:160-167 | storing a review result keeps a card well-formed: a reviewed card has an interval of at least one day, the ease stays at least 1.3 |
| Lingvist.FindIndex | src/lingvist.ts:147-148 | `findIndex`: None exactly when no card has the id; otherwise the first position holding it |
| Lingvist.NextCard | src/lingvist.ts:117-141 | if an overdue review exists, the first one in store order with the least due date is returned; otherwise the first new card with the least frequency rank; nothing only when no card is new |
| Lingvist.SubmitGrade | src/lingvist.ts:153-157 | PERFECT exactly when the trimmed, lowercased input equals the lowercased target, FAIL otherwise |
| Lingvist.SubmitGradeIgnoresSurroundingWhitespace | src/lingvist.ts:153-157 | whitespace typed around an answer never changes its grade |
| Lingvist.TargetIsPerfect | src/lingvist.ts:153-157 | typing a target that has no whitespace at its ends, with any whitespace around it, earns PERFECT |
| Lingvist.SubmitGradeSchedules | src/lingvist.ts:153-160 | a wrong answer restarts the card at repetition 0, interval 1, due the next day, ease unchanged; a right one counts a repetition and raises the ease by 0.1 or sets it to the 1.3 floor |
| Lingvist.EditDistanceToEmpty | src/lingvist.ts:188-189 | the distance to or from the empty string is the other string's length |
| Lingvist.EditDistanceZeroIffEqual | src/lingvist.ts:174-179 | the distance is zero exactly when the strings are equal |
| Lingvist.EditDistanceBounds | src/lingvist.ts:186-204 | the distance lies between the difference of the lengths and the longer length |
| Lingvist.EditDistanceOfPrefixes | src/lingvist.ts:193-200 | each matrix cell follows the recurrence on the prefixes `a[..j]`, `b[..i]` |
| Lingvist.FillRow | src/lingvist.ts:192-201 | after one pass of the inner loop, row `i` holds the distances from every prefix of `a` to `b[..i]`; no other row changes |
| Lingvist.Levenshtein | src/lingvist.ts:186-204 | the matrix algorithm returns the edit distance |
| Lingvist.LearningService.constructor | src/lingvist.ts:100-110 | every word is seeded with repetition 0, interval 0, ease 2.5, due now, new, with its word fields and order kept |
| Lingvist.LearningService.GetNextCard | src/lingvist.ts:117-141 | on the current store: the first overdue review with the least due date, else the first new card with the least frequency rank, nothing only when no card is new |
| Lingvist.LearningService.SubmitReview | src/lingvist.ts:146-170 | an unknown id fails with "Card not found" and leaves the store unchanged; otherwise only the first entry with that id is overwritten with the scheduler's result and `isNew = false`, and the reply is the grade and the new interval; the store stays well-formed |
| Lingvist.LearningService.CheckTypo | src/lingvist.ts:174-179 | a typo exactly when `0 < distance <= floor(len/5) + 1`; an exact match is never a typo |
| Server.LearningCount | src/index.ts:133-138 | the learning-queue count is at most the number of cards, and zero exactly when no card is in the queue |
| Server.Learn | src/index.ts:113-169 | tier 1: an overdue review with the least due date; tier 2, when the queue holds at least 5: the learning card with the least due date, not yet due, with the hint; tier 3: the new word with the least frequency rank; otherwise the caught-up message |
| Server.LearnTierOrder | src/index.ts:126-165 | a new word is never served while a review is overdue or the queue is full, and the hint appears only with a full queue |
| Server.LearnMatchesServiceBelowLimit | src/index.ts:113-169 | below the queue limit `/learn` serves a card exactly when the service's `getNextCard` does, of the same kind; with the model's snapshot-order tie-break it is the same card (see "## Left out") |
| Server.IsCorrect | src/index.ts:27-29 | an answer equal to the target is always correct |
| Server.AccentsDoNotMatter | src/index.ts:27-29 | an answer with an accented letter is graded like the same answer with the base letter |
| Server.NormalFormIsAccepted | src/index.ts:27-29 | given coherent tables, typing the target's normal form counts as correct |
| Server.ReviewMessage | src/index.ts:46-47 | "Great job!" exactly when the answer is correct and was not revealed, "Review this again soon." otherwise |
| Server.ReviewMessageMatchesSchedule | src/index.ts:33-47 | "Great job!" is shown exactly when the review moves the card out of the learning queue (new interval not zero) |
| Server.StoreKeepsRowsValid | src/index.ts:39 | writing a well-formed row under its own id keeps every row well-formed and keyed by its id |
| Server.WordTable.Review | src/index.ts:16-48 | an unknown id fails and changes nothing; otherwise only that row is overwritten with `calculateReview`'s result for the normal-form comparison, and the reply holds the grade, the target, the new interval and the message |
| ImportAnki.AfterTag | src/import-anki.ts:65 | what is left after a tag's closing `>`: never longer than the input, and empty when no `>` follows |
| ImportAnki.RemoveTags | src/import-anki.ts:65 | `replace(/<[^>]*>?/gm, "")` leaves no `<`, and leaves text without `<` unchanged |
| ImportAnki.StripHtml | src/import-anki.ts:63-66 | a missing or empty field gives ""; the result has no `<` and no surrounding whitespace |
| ImportAnki.StripHtmlWithoutTags | src/import-anki.ts:65 | a field without tags is only trimmed |
| ImportAnki.TextBeforeTagKept | src/import-anki.ts:65 | text before the first tag is kept as it is and in order |
| ImportAnki.ClosedTagRemoved | src/import-anki.ts:65 | a closed tag, attributes included, disappears and what follows is cleaned on its own |
| ImportAnki.UnclosedTagRemoved | src/import-anki.ts:65 | a tag never closed swallows the rest of the field |
| ImportAnki.AfterTagSkipsBody | src/import-anki.ts:65 | the search for `>` passes over text that holds no `>` |
| ImportAnki.StripHtmlIdempotent | src/import-anki.ts:63-66 | cleaning a cleaned field changes nothing |
| ImportAnki.Split | src/import-anki.ts:29 | `split('\x1f')` gives at least one piece, no piece contains the separator, and a text without separator is one piece |
| ImportAnki.JoinSplit | src/import-anki.ts:29 | joining the pieces with the separator gives back the note |
| ImportAnki.SplitJoin | src/import-anki.ts:29 | splitting a note joined from separator-free fields gives back the fields |
| ImportAnki.FieldsRecord | src/import-anki.ts:35-46 | a record is made only when both cleaned fields are non-empty; it carries the given rank and `isNew = true`; a note with one field gives none |
| ImportAnki.NoteRecord | src/import-anki.ts:28-46 | the record of a raw note: carries its rank, is new, both texts non-empty; a note without separator gives none |
| ImportAnki.NoteOfFields | src/import-anki.ts:29-39 | for a note built from fields, the Vietnamese text is field 0 cleaned, the English text is field 1 cleaned, and a record exists exactly when both are non-empty |
| ImportAnki.RecordsSound | src/import-anki.ts:39-46 | every output record is the record of the note at position rank - 1 and is new |
| ImportAnki.RecordsOrdered | src/import-anki.ts:43 | ranks strictly increase in output order |
| ImportAnki.RecordsComplete | src/import-anki.ts:39-46 | every note that yields a record has it in the output |
| ImportAnki.BuildRecords | src/import-anki.ts:27-47 | the loop's `recordsToInsert` is the in-order list of the notes' records |
| ImportAnki.InsertInChunks | src/import-anki.ts:50-57 | the chunks put together are `recordsToInsert` in order; each holds 1 to 500 records, and all but the last hold exactly 500 |

## Left out

- `toLowerCase` and `normalize("NFD")` are per-code-point tables supplied as a parameter. Unicode canonical reordering is not modelled, and neither is context-sensitive or one-to-many special casing (e.g. final sigma: `"ΑΣ".toLowerCase()` is "ας", which no per-character table gives).
- JavaScript strings count UTF-16 code units. The model's strings are sequences of code points, so `length` in `checkTypo`'s threshold and the edit distance count code points.
- `easeFactor` is a real number, not an IEEE double. The grade-4 ease bonus is exactly 0 in both.
- `setDate` calendar arithmetic and daylight-saving shifts are not modelled: a day is a fixed 86400000 ms.
- Server.LearnMatchesServiceBelowLimit: `findFirst` with `orderBy` (`src/index.ts:120-124`, `src/index.ts:158-162`) may return any of several rows tied on the sort key. The database does not promise which. The model's `/learn` takes the first minimal card of the snapshot, as the stable sort of `getNextCard` does. `Server.Learn`'s own contract promises only a minimal card. The "same card" of this lemma holds only under that snapshot-order tie-break. With ties, the real handler may serve another card with the same due date or the same rank.
- Server.Learn: `frequencyRank` is modelled as always present. Postgres places null ranks last, and that is not modelled.
- `count` at `src/index.ts:134` is not imported in that file. The model counts the learning queue as evidently intended.
- `formatCardResponse` is not modelled: it picks a context sentence at random and shapes the JSON. `/learn` returns the chosen card and hint instead.
- The `/words` seeding endpoint and the sentence relation are not part of this model.
- `async`/`await`, and concurrent reviews of the same card, are not modelled.
- The simulation runner at the end of `src/lingvist.ts` and all console output are not modelled.
- `src/generate-sentences.ts`, `src/cli.ts`, `src/db.ts`, `src/schema.ts` and `drizzle.config.ts` are not part of this model.
- ImportAnki: these steps are not modelled:
  - the `TRUNCATE`, the unzip and the SQLite query that produce `notes`;
  - the actual inserts, since `InsertInChunks` returns the chunks in insertion order;
  - the clean-up.
- Text.Decompose: only the empty case is stated as a contract. The facts about decomposition that the normaliser needs come from the `Coherent` assumption.
- Logic.CalculateReview: intervals and due dates are unbounded integers. `/review` does not check that a card is due, and a card that only passes keeps ease 2.5, so its interval grows 1, 3, 8, 20, … without limit. The `interval` column is a 32-bit integer (`src/schema.ts:14`), and a JavaScript `Date` ends at ±8.64e15 ms. Past those limits the database write fails, or the due date becomes an invalid date. The model does not bound the values and never fails there.
- Lingvist.CalculateNextReview: the same unbounded growth. In the code an invalid due date compares false in `getNextCard`, so such a card is never overdue again. The model's due dates are always valid.
- Algo.CalculateNextReview: intervals and due dates are unbounded integers, as for the other schedulers.
