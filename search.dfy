/** Narrowing a note list by keyword, owner, day and flag (`searchNotes`,
    handler-helper.go). */
module Search {
  import opened Seqs
  import opened Text
  import opened Records

  /** The four search criteria; `""` and `-1` mean "not set". */
  datatype Criteria = Criteria(keyword: string, user: int, date: string, flag: int)

  /** No criterion set: the value the application starts with. */
  const Unset := Criteria("", -1, "", -1)

  /** Case-insensitive substring match on the name or on the content. */
  predicate KeywordMatches(n: Note, keyword: string)
  {
    keyword == ""
    || Contains(Lower(n.name), Lower(keyword))
    || Contains(Lower(n.content), Lower(keyword))
  }

  /** The owner criterion is a Go `int` compared after conversion to `int32`. */
  predicate OwnerMatches(n: Note, user: int)
  {
    user == -1 || n.owner == ToInt32(user)
  }

  /** The creation day matches, or, for a completed note only, the completion day. */
  predicate DateMatches(n: Note, date: string)
  {
    date == ""
    || IsoDate(n.date) == date
    || (n.flag == NoteFlagCompleted && IsoDate(n.completionDate) == date)
  }

  predicate FlagMatches(n: Note, flag: int)
  {
    flag == -1 || n.flag == flag
  }

  /** All four checks pass. */
  predicate Matches(n: Note, c: Criteria)
  {
    KeywordMatches(n, c.keyword) && OwnerMatches(n, c.user)
    && DateMatches(n, c.date) && FlagMatches(n, c.flag)
  }

  /** The notes that pass every check, in the order given. */
  function SearchResult(notes: seq<Note>, c: Criteria): seq<Note>
  {
    Filter(n => Matches(n, c), notes)
  }

  /** `searchNotes`: computes the four checks for each note and keeps the note
      when all of them hold. */
  method SearchNotes(notes: seq<Note>, keyword: string, user: int, date: string, flag: int)
    returns (filtered: seq<Note>)
    ensures filtered == SearchResult(notes, Criteria(keyword, user, date, flag))
    ensures forall n :: n in filtered <==> n in notes && Matches(n, Criteria(keyword, user, date, flag))
  {
    ghost var c := Criteria(keyword, user, date, flag);
    filtered := [];
    for i := 0 to |notes|
      invariant filtered == SearchResult(notes[..i], c)
    {
      var note := notes[i];
      var hasKeyword, hasUser, hasDate, hasFlag := false, false, false, false;
      if keyword == ""
        || Contains(Lower(note.name), Lower(keyword))
        || Contains(Lower(note.content), Lower(keyword))
      {
        hasKeyword := true;
      }
      if user == -1 || note.owner == ToInt32(user) {
        hasUser := true;
      }
      if date == "" || IsoDate(note.date) == date
        || (note.flag == NoteFlagCompleted && IsoDate(note.completionDate) == date)
      {
        hasDate := true;
      }
      if flag == -1 || note.flag == flag {
        hasFlag := true;
      }
      assert notes[..i + 1][..i] == notes[..i];
      if hasKeyword && hasUser && hasDate && hasFlag {
        filtered := filtered + [note];
      }
    }
    assert notes[..|notes|] == notes;
    forall n {
      SearchMembership(notes, c, n);
    }
  }

  /** A note is in the result exactly when it is in the input and passes. */
  lemma SearchMembership(notes: seq<Note>, c: Criteria, n: Note)
    ensures n in SearchResult(notes, c) <==> n in notes && Matches(n, c)
  {
    FilterMembership(n => Matches(n, c), notes, n);
  }

  /** The result keeps the input's relative order and repeats nothing. */
  lemma SearchIsSubsequence(notes: seq<Note>, c: Criteria)
    ensures Embeds(SearchResult(notes, c), notes, FilterIndices(n => Matches(n, c), notes))
    ensures forall n :: multiset(SearchResult(notes, c))[n] == if Matches(n, c) then multiset(notes)[n] else 0
  {
    FilterEmbeds(n => Matches(n, c), notes);
    forall n {
      FilterMultiplicity(n => Matches(n, c), notes, n);
    }
  }

  /** With no criterion set the search returns its input unchanged. */
  lemma SearchUnsetIsIdentity(notes: seq<Note>)
    ensures SearchResult(notes, Unset) == notes
  {
    FilterAllPass(n => Matches(n, Unset), notes);
  }

  /** The keyword check is substring search on the lower-cased name or content. */
  lemma KeywordMatchesIff(n: Note, keyword: string)
    ensures KeywordMatches(n, keyword) <==>
      keyword == ""
      || (exists i :: OccursAt(Lower(n.name), Lower(keyword), i))
      || (exists i :: OccursAt(Lower(n.content), Lower(keyword), i))
  {
    ContainsIffOccurs(Lower(n.name), Lower(keyword));
    ContainsIffOccurs(Lower(n.content), Lower(keyword));
  }

  /** The case of the keyword does not matter. */
  lemma KeywordCaseInsensitive(n: Note, keyword: string)
    ensures KeywordMatches(n, keyword) == KeywordMatches(n, Lower(keyword))
  {
    LowerIdempotent(keyword);
  }

  /** The keyword "TODO" finds a note whose content reads "remember the todo list". */
  lemma KeywordIgnoresCase(n: Note)
    requires n.content == "remember the todo list"
    ensures KeywordMatches(n, "TODO")
  {
    assert Lower("TODO") == "todo";
    assert Lower(n.content)[13..17] == "todo";
    assert OccursAt(Lower(n.content), Lower("TODO"), 13);
    KeywordMatchesIff(n, "TODO");
  }

  /** For a real day: a note that is not completed is found by its creation day
      only; a completed note by its creation day or its completion day. */
  lemma DateMatchesDay(n: Note, day: Date)
    requires ValidDate(day) && ValidDate(n.date) && ValidDate(n.completionDate)
    ensures DateMatches(n, IsoDate(day)) <==>
      n.date == day || (n.flag == NoteFlagCompleted && n.completionDate == day)
  {
    PadDecimalLength(day.year, 4);
    if IsoDate(n.date) == IsoDate(day) {
      IsoDateInjective(n.date, day);
    }
    if IsoDate(n.completionDate) == IsoDate(day) {
      IsoDateInjective(n.completionDate, day);
    }
  }

  /** The owner criterion is truncated to 32 bits before the comparison, so a
      value 2^32 above an id selects that id's notes. */
  lemma OwnerCriterionWraps(n: Note, id: Int32)
    ensures OwnerMatches(n, id + 0x1_0000_0000) <==> n.owner == id
  {
    assert ToInt32(id + 0x1_0000_0000) == id;
  }
}
