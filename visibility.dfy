/** Which notes a user may see (`getAccessibleNotes`, handler-helper.go). */
module Visibility {
  import opened Seqs
  import opened Records

  /** A note is visible to a user when its share list is empty, when the user's
      id is in the share list, or when the user owns it. */
  predicate CanSee(user: User, note: Note)
  {
    |note.share| == 0 || user.id in note.share || note.owner == user.id
  }

  /** The notes `user` may see, in the order given. */
  function AccessibleNotes(user: User, notes: seq<Note>): seq<Note>
  {
    Filter(n => CanSee(user, n), notes)
  }

  /** `getAccessibleNotes`: one pass over the notes; an unshared note is kept at
      once, otherwise the share list is scanned until an entry equals the user's
      id or the note turns out to be the user's own. */
  method GetAccessibleNotes(user: User, notes: seq<Note>) returns (filtered: seq<Note>)
    ensures filtered == AccessibleNotes(user, notes)
    ensures forall n :: n in filtered <==> n in notes && CanSee(user, n)
  {
    filtered := [];
    for i := 0 to |notes|
      invariant filtered == AccessibleNotes(user, notes[..i])
    {
      var note := notes[i];
      assert notes[..i + 1][..i] == notes[..i];
      ghost var before := filtered;
      if |note.share| == 0 {
        filtered := filtered + [note];
      }
      ghost var found := false;
      var j := 0;
      while j < |note.share|
        invariant 0 <= j <= |note.share|
        invariant !found && filtered == before + (if |note.share| == 0 then [note] else [])
        invariant forall k :: 0 <= k < j ==> note.share[k] != user.id && note.owner != user.id
      {
        if note.share[j] == user.id || note.owner == user.id {
          filtered := filtered + [note];
          found := true;
          break;
        }
        j := j + 1;
      }
      if found {
        assert filtered == before + [note] && CanSee(user, note);
      } else if |note.share| > 0 {
        assert note.share[0] != user.id;
        assert user.id !in note.share;
        assert filtered == before;
      }
      assert filtered == before + (if CanSee(user, note) then [note] else []);
      assert AccessibleNotes(user, notes[..i + 1])
          == AccessibleNotes(user, notes[..i]) + (if CanSee(user, note) then [note] else []);
    }
    assert notes[..|notes|] == notes;
    forall n {
      AccessibleMembership(user, notes, n);
    }
  }

  /** A note is in the result exactly when it is in the input and visible. */
  lemma AccessibleMembership(user: User, notes: seq<Note>, n: Note)
    ensures n in AccessibleNotes(user, notes) <==> n in notes && CanSee(user, n)
  {
    FilterMembership(n => CanSee(user, n), notes, n);
  }

  /** The result is an order-preserving subsequence of the input, no note is
      repeated, and it is no longer than the input. */
  lemma AccessibleIsSubsequence(user: User, notes: seq<Note>)
    ensures Embeds(AccessibleNotes(user, notes), notes, FilterIndices(n => CanSee(user, n), notes))
    ensures forall n :: multiset(AccessibleNotes(user, notes))[n] == if CanSee(user, n) then multiset(notes)[n] else 0
    ensures |AccessibleNotes(user, notes)| <= |notes|
  {
    FilterEmbeds(n => CanSee(user, n), notes);
    forall n {
      FilterMultiplicity(n => CanSee(user, n), notes, n);
    }
  }

  /** Filtering an already filtered list for the same user changes nothing. */
  lemma AccessibleIdempotent(user: User, notes: seq<Note>)
    ensures AccessibleNotes(user, AccessibleNotes(user, notes)) == AccessibleNotes(user, notes)
  {
    FilterIdempotent(n => CanSee(user, n), notes);
  }

  /** A note whose share list is the single entry -1 is visible to a user whose
      id is not -1 only when that user owns it. */
  lemma ShareMinusOneIsPrivate(user: User, note: Note)
    requires note.share == [-1] && user.id != -1
    ensures CanSee(user, note) <==> note.owner == user.id
  {
  }

  /** An empty share list makes a note visible to every user. */
  lemma EmptyShareIsPublic(user: User, notes: seq<Note>, n: Note)
    requires n in notes && n.share == []
    ensures n in AccessibleNotes(user, notes)
  {
    AccessibleMembership(user, notes, n);
  }

  /** User 1 sees an unshared note of their own, a note of user 2 shared with
      them, and an unshared note of user 2: all three, in order. */
  lemma ThreeNotesExample(user: User, a: Note, b: Note, c: Note)
    requires user.id == 1
    requires a.owner == 1 && a.share == []
    requires b.owner == 2 && b.share == [1]
    requires c.owner == 2 && c.share == []
    ensures AccessibleNotes(user, [a, b, c]) == [a, b, c]
  {
    FilterAllPass(n => CanSee(user, n), [a, b, c]);
  }
}
