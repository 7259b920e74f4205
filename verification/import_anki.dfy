/**
 * The Anki deck importer (src/import-anki.ts): each note's fields are split, cleaned of HTML
 * and turned into a word record ranked by the note's position; the records are then inserted
 * in chunks of 500.
 */
module ImportAnki {
  import opened Wrappers
  import opened Text

  /** Anki separates the fields of a note with the unit separator, U+001F. */
  const FIELD_SEPARATOR: char := '\U{1F}'
  const CHUNK_SIZE: nat := 500

  /** A row to insert into the `words` table. */
  datatype WordRecord = WordRecord(english: string, vietnamese: string, frequencyRank: int, isNew: bool)

  /** What follows a tag's `<`: the text after the next `>`, or nothing when the tag is never closed. */
  function AfterTag(s: string): (r: string)
    ensures |r| <= |s|
    ensures '>' !in s ==> r == []
  {
    if s == [] then []
    else if s[0] == '>' then s[1..]
    else AfterTag(s[1..])
  }

  /** `replace(/<[^>]*>?/gm, "")`: deletes each `<` together with everything up to and including the next `>`. */
  function RemoveTags(s: string): (r: string)
    ensures '<' !in r
    ensures '<' !in s ==> r == s
    decreases |s|
  {
    if s == [] then []
    else if s[0] == '<' then RemoveTags(AfterTag(s[1..]))
    else [s[0]] + RemoveTags(s[1..])
  }

  /** `stripHtml`: a missing or empty field is empty; otherwise the tags are removed and the rest trimmed. */
  function StripHtml(html: Option<string>): (r: string)
    ensures '<' !in r
    ensures IsTrimmed(r)
    ensures html.None? || html == Some([]) ==> r == []
  {
    if html.None? || html.value == [] then [] else Trim(RemoveTags(html.value))
  }

  /** A field without tags is only trimmed. */
  lemma StripHtmlWithoutTags(html: string)
    requires '<' !in html
    ensures StripHtml(Some(html)) == Trim(html)
  {
  }

  /** Text before the first tag is kept as it is, in order. */
  lemma {:induction false} TextBeforeTagKept(u: string, v: string)
    requires '<' !in u
    ensures RemoveTags(u + v) == u + RemoveTags(v)
  {
    if u != [] {
      var w := u[1..];
      assert u[0] != '<' by {
        assert u[0] in u;
      }
      assert '<' !in w by {
        assert forall i :: 0 <= i < |w| ==> w[i] == u[i + 1];
      }
      var s := u + v;
      assert s[0] == u[0] && s[1..] == w + v;
      assert RemoveTags(s) == [u[0]] + RemoveTags(w + v);
      TextBeforeTagKept(w, v);
      assert [u[0]] + (w + RemoveTags(v)) == ([u[0]] + w) + RemoveTags(v);
      assert [u[0]] + w == u;
    } else {
      assert u + v == v;
    }
  }

  /** A closed tag disappears, attributes and all. */
  lemma {:induction false} ClosedTagRemoved(t: string, v: string)
    requires '>' !in t
    ensures RemoveTags(['<'] + t + ['>'] + v) == RemoveTags(v)
  {
    AfterTagSkipsBody(t, ['>'] + v);
    assert (['<'] + t + ['>'] + v)[1..] == t + (['>'] + v);
  }

  /** A tag left open at the end swallows the rest of the field. */
  lemma UnclosedTagRemoved(t: string)
    requires '>' !in t
    ensures RemoveTags(['<'] + t) == []
  {
    assert (['<'] + t)[1..] == t;
  }

  lemma {:induction false} AfterTagSkipsBody(t: string, w: string)
    requires '>' !in t
    ensures AfterTag(t + w) == AfterTag(w)
  {
    if t != [] {
      assert t[0] in t && forall c :: c in t[1..] ==> c in t;
      var s := t + w;
      assert s[0] == t[0] && s[1..] == t[1..] + w;
      AfterTagSkipsBody(t[1..], w);
      assert AfterTag(s) == AfterTag(t[1..] + w);
    } else {
      assert t + w == w;
    }
  }

  /** Cleaning a cleaned field changes nothing. */
  lemma StripHtmlIdempotent(html: Option<string>)
    ensures StripHtml(Some(StripHtml(html))) == StripHtml(html)
  {
  }

  /** The fields joined back with the separator. */
  function Join(parts: seq<string>, sep: char): string
    requires |parts| >= 1
  {
    if |parts| == 1 then parts[0] else parts[0] + [sep] + Join(parts[1..], sep)
  }

  /** `split(sep)`: the pieces between separators, at least one, none holding a separator. */
  function Split(s: string, sep: char): (parts: seq<string>)
    ensures |parts| >= 1
    ensures forall k :: 0 <= k < |parts| ==> sep !in parts[k]
    ensures sep !in s ==> parts == [s]
  {
    if s == [] then [[]]
    else
      var rest := Split(s[1..], sep);
      if s[0] == sep then [[]] + rest
      else
        assert sep !in s ==> sep !in s[1..] && [s[0]] + s[1..] == s;
        [[s[0]] + rest[0]] + rest[1..]
  }

  /** Joining the pieces back with the separator gives the original text. */
  lemma {:induction false} JoinSplit(s: string, sep: char)
    ensures Join(Split(s, sep), sep) == s
  {
    if s != [] {
      var rest := Split(s[1..], sep);
      JoinSplit(s[1..], sep);
      if s[0] == sep {
        assert Join([[]] + rest, sep) == [sep] + Join(rest, sep);
      } else {
        JoinHead(rest, sep, s[0]);
      }
      assert [s[0]] + s[1..] == s;
    }
  }

  lemma JoinHead(parts: seq<string>, sep: char, c: char)
    requires |parts| >= 1
    ensures Join([[c] + parts[0]] + parts[1..], sep) == [c] + Join(parts, sep)
  {
    var q := [[c] + parts[0]] + parts[1..];
    assert q[1..] == parts[1..];
  }

  /** Splitting a joined list of separator-free fields gives the fields back. */
  lemma {:induction false} SplitJoin(parts: seq<string>, sep: char)
    requires |parts| >= 1
    requires forall k :: 0 <= k < |parts| ==> sep !in parts[k]
    ensures Split(Join(parts, sep), sep) == parts
    decreases |parts|
  {
    if |parts| > 1 {
      SplitJoin(parts[1..], sep);
      SplitAfterField(parts[0], Join(parts[1..], sep), sep);
      assert [parts[0]] + parts[1..] == parts;
    }
  }

  lemma {:induction false} SplitAfterField(p: string, w: string, sep: char)
    requires sep !in p
    ensures Split(p + [sep] + w, sep) == [p] + Split(w, sep)
  {
    if p == [] {
      assert [] + [sep] + w == [sep] + w;
      assert ([sep] + w)[1..] == w;
    } else {
      assert p[0] in p && forall c :: c in p[1..] ==> c in p;
      assert (p + [sep] + w)[0] == p[0] && (p + [sep] + w)[1..] == p[1..] + [sep] + w;
      SplitAfterField(p[1..], w, sep);
      assert [p[0]] + p[1..] == p;
    }
  }

  /**
   * The record made from a note's fields at 1-based position `rank`: Vietnamese from the first
   * field, English from the second, both cleaned; none unless both are non-empty.
   */
  function FieldsRecord(splitFields: seq<string>, rank: int): (r: Option<WordRecord>)
    requires |splitFields| >= 1
    ensures r.Some? ==>
      && r.value.frequencyRank == rank && r.value.isNew
      && r.value.english != [] && r.value.vietnamese != []
    ensures |splitFields| == 1 ==> r == None
  {
    var vietnamese := StripHtml(Some(splitFields[0]));
    var english := StripHtml(if |splitFields| > 1 then Some(splitFields[1]) else None);
    if english != [] && vietnamese != [] then Some(WordRecord(english, vietnamese, rank, true)) else None
  }

  /** The record for the raw note `flds` at 1-based position `rank`; a note with one field has none. */
  function NoteRecord(flds: string, rank: int): (r: Option<WordRecord>)
    ensures r.Some? ==>
      && r.value.frequencyRank == rank && r.value.isNew
      && r.value.english != [] && r.value.vietnamese != []
    ensures FIELD_SEPARATOR !in flds ==> r == None
  {
    FieldsRecord(Split(flds, FIELD_SEPARATOR), rank)
  }

  /** For a note built from fields, field 0 is the Vietnamese and field 1 the English text. */
  lemma NoteOfFields(fields: seq<string>, rank: int)
    requires |fields| >= 2
    requires forall k :: 0 <= k < |fields| ==> FIELD_SEPARATOR !in fields[k]
    ensures var v := StripHtml(Some(fields[0]));
      var e := StripHtml(Some(fields[1]));
      NoteRecord(Join(fields, FIELD_SEPARATOR), rank)
        == if v != [] && e != [] then Some(WordRecord(e, v, rank, true)) else None
  {
    JoinedNoteRecord(fields, rank);
  }

  /** A note joined from separator-free fields converts through exactly those fields. */
  lemma JoinedNoteRecord(parts: seq<string>, rank: int)
    requires |parts| >= 1
    requires forall k :: 0 <= k < |parts| ==> FIELD_SEPARATOR !in parts[k]
    ensures NoteRecord(Join(parts, FIELD_SEPARATOR), rank) == FieldsRecord(parts, rank)
  {
    SplitJoin(parts, FIELD_SEPARATOR);
  }

  /** The per-note conversions, the note at position i having rank i + 1. */
  function Conversions(notes: seq<string>): (conv: seq<Option<WordRecord>>)
    ensures |conv| == |notes|
    ensures forall i :: 0 <= i < |notes| ==> conv[i] == NoteRecord(notes[i], i + 1)
  {
    seq(|notes|, i requires 0 <= i < |notes| => NoteRecord(notes[i], i + 1))
  }

  /** The records of the successful conversions, in order. */
  function Kept(conv: seq<Option<WordRecord>>): seq<WordRecord> {
    if conv == [] then []
    else Kept(conv[..|conv| - 1]) + match conv[|conv| - 1] case Some(rec) => [rec] case None => []
  }

  /** Each successful conversion carries its 1-based position as its rank. */
  predicate RanksArePositions(conv: seq<Option<WordRecord>>) {
    forall i :: 0 <= i < |conv| && conv[i].Some? ==> conv[i].value.frequencyRank == i + 1
  }

  lemma {:induction false} KeptSoundAndOrdered(conv: seq<Option<WordRecord>>)
    requires RanksArePositions(conv)
    ensures forall k :: 0 <= k < |Kept(conv)| ==>
      && 1 <= Kept(conv)[k].frequencyRank <= |conv|
      && conv[Kept(conv)[k].frequencyRank - 1] == Some(Kept(conv)[k])
    ensures forall k, l :: 0 <= k < l < |Kept(conv)| ==> Kept(conv)[k].frequencyRank < Kept(conv)[l].frequencyRank
  {
    if conv != [] {
      var prefix := conv[..|conv| - 1];
      assert RanksArePositions(prefix) by {
        forall i | 0 <= i < |prefix| && prefix[i].Some? ensures prefix[i].value.frequencyRank == i + 1 {
          assert prefix[i] == conv[i];
        }
      }
      KeptSoundAndOrdered(prefix);
      var earlier := Kept(prefix);
      var r := Kept(conv);
      forall k | 0 <= k < |r|
        ensures 1 <= r[k].frequencyRank <= |conv| && conv[r[k].frequencyRank - 1] == Some(r[k])
      {
        if k < |earlier| {
          assert r[k] == earlier[k];
          assert prefix[earlier[k].frequencyRank - 1] == conv[earlier[k].frequencyRank - 1];
        } else {
          assert conv[|conv| - 1] == Some(r[k]);
        }
      }
      forall k, l | 0 <= k < l < |r| ensures r[k].frequencyRank < r[l].frequencyRank {
        if l >= |earlier| {
          assert r[k] == earlier[k];
          assert earlier[k].frequencyRank <= |prefix|;
        }
      }
    }
  }

  lemma {:induction false} KeptComplete(conv: seq<Option<WordRecord>>, i: nat)
    requires i < |conv| && conv[i].Some?
    ensures conv[i].value in Kept(conv)
  {
    var prefix := conv[..|conv| - 1];
    if i < |conv| - 1 {
      assert prefix[i] == conv[i];
      KeptComplete(prefix, i);
    }
  }

  lemma ConversionRanks(notes: seq<string>)
    ensures RanksArePositions(Conversions(notes))
  {
    var conv := Conversions(notes);
    forall i | 0 <= i < |conv| && conv[i].Some?
      ensures conv[i].value.frequencyRank == i + 1
    {
      assert conv[i] == NoteRecord(notes[i], i + 1);
    }
  }

  /** The records the import loop produces for `notes`, in note order. */
  function RecordsOf(notes: seq<string>): seq<WordRecord> {
    Kept(Conversions(notes))
  }

  /** Every record is the conversion of the note at position rank - 1, and is marked new. */
  lemma RecordsSound(notes: seq<string>, k: nat)
    requires k < |RecordsOf(notes)|
    ensures var rec := RecordsOf(notes)[k];
      && 1 <= rec.frequencyRank <= |notes| && rec.isNew
      && NoteRecord(notes[rec.frequencyRank - 1], rec.frequencyRank) == Some(rec)
  {
    var conv := Conversions(notes);
    ConversionRanks(notes);
    KeptSoundAndOrdered(conv);
    var rec := RecordsOf(notes)[k];
    var j := rec.frequencyRank - 1;
    assert conv[j] == Some(rec) && conv[j] == NoteRecord(notes[j], j + 1);
  }

  /** The records come out in note order: their ranks strictly increase. */
  lemma RecordsOrdered(notes: seq<string>)
    ensures forall k, l :: 0 <= k < l < |RecordsOf(notes)| ==>
      RecordsOf(notes)[k].frequencyRank < RecordsOf(notes)[l].frequencyRank
  {
    ConversionRanks(notes);
    KeptSoundAndOrdered(Conversions(notes));
  }

  /** Every note that converts has its record among the output. */
  lemma RecordsComplete(notes: seq<string>, i: nat)
    requires i < |notes| && NoteRecord(notes[i], i + 1).Some?
    ensures NoteRecord(notes[i], i + 1).value in RecordsOf(notes)
  {
    KeptComplete(Conversions(notes), i);
  }

  /** Extending the conversions by one adds that conversion's record, if any. */
  lemma KeptStep(conv: seq<Option<WordRecord>>, i: nat)
    requires i < |conv|
    ensures Kept(conv[..i + 1]) == Kept(conv[..i]) + match conv[i] case Some(rec) => [rec] case None => []
  {
    assert conv[..i + 1][..i] == conv[..i];
  }

  /** The loop over the notes in `main`, building `recordsToInsert`. */
  method BuildRecords(notes: seq<string>) returns (recordsToInsert: seq<WordRecord>)
    ensures recordsToInsert == RecordsOf(notes)
  {
    ghost var conv := Conversions(notes);
    recordsToInsert := [];
    for i := 0 to |notes|
      invariant recordsToInsert == Kept(conv[..i])
    {
      var splitFields := Split(notes[i], FIELD_SEPARATOR);
      var vietnamese := StripHtml(Some(splitFields[0]));
      var english := StripHtml(if |splitFields| > 1 then Some(splitFields[1]) else None);
      assert conv[i] == if english != [] && vietnamese != [] then Some(WordRecord(english, vietnamese, i + 1, true)) else None;
      KeptStep(conv, i);
      if english != [] && vietnamese != [] {
        recordsToInsert := recordsToInsert + [WordRecord(english, vietnamese, i + 1, true)];
      }
    }
    assert conv[..|notes|] == conv;
  }

  /** The chunks one after another. */
  function Flatten(chunks: seq<seq<WordRecord>>): seq<WordRecord> {
    if chunks == [] then [] else Flatten(chunks[..|chunks| - 1]) + chunks[|chunks| - 1]
  }

  /**
   * The bulk-insert loop: the records cut, in order, into chunks of CHUNK_SIZE, the last one
   * possibly shorter; the chunks are returned in the order they are inserted.
   */
  method InsertInChunks(recordsToInsert: seq<WordRecord>) returns (chunks: seq<seq<WordRecord>>)
    ensures Flatten(chunks) == recordsToInsert
    ensures forall k :: 0 <= k < |chunks| ==> 0 < |chunks[k]| <= CHUNK_SIZE
    ensures forall k :: 0 <= k < |chunks| - 1 ==> |chunks[k]| == CHUNK_SIZE
  {
    chunks := [];
    var i := 0;
    while i < |recordsToInsert|
      invariant i == |chunks| * CHUNK_SIZE
      invariant Flatten(chunks) == recordsToInsert[..if i <= |recordsToInsert| then i else |recordsToInsert|]
      invariant forall k :: 0 <= k < |chunks| ==> 0 < |chunks[k]| <= CHUNK_SIZE
      invariant i <= |recordsToInsert| ==> forall k :: 0 <= k < |chunks| ==> |chunks[k]| == CHUNK_SIZE
      invariant forall k :: 0 <= k < |chunks| - 1 ==> |chunks[k]| == CHUNK_SIZE
    {
      var end := if i + CHUNK_SIZE <= |recordsToInsert| then i + CHUNK_SIZE else |recordsToInsert|;
      var chunk := recordsToInsert[i..end];
      assert Flatten(chunks + [chunk]) == Flatten(chunks) + chunk by {
        assert (chunks + [chunk])[..|chunks|] == chunks;
      }
      assert recordsToInsert[..i] + recordsToInsert[i..end] == recordsToInsert[..end];
      chunks := chunks + [chunk];
      i := i + CHUNK_SIZE;
    }
  }
}
