/** What the dashboard page is built from (`dashboardHandler`, handlers.go):
    the data handed to the template and the helper functions the template
    calls. */
module Dashboard {
  import opened Seqs
  import opened Text
  import opened Records
  import opened Visibility
  import opened Search
  import opened Tables
  import opened Strconv

  /** `DashboardData`: the page's user, their settings, the other users (with
      their password hashes blanked) and the notes to list. */
  datatype DashboardData = DashboardData(
    currentUser: User,
    currentUserSettings: UserSettings,
    users: seq<User>,
    notes: seq<Note>)

  /** The users with every password blanked, as `clearUserPasswordHash` leaves them. */
  function Scrubbed(users: seq<User>): (r: seq<User>)
    ensures |r| == |users|
    ensures forall i :: 0 <= i < |users| ==> r[i] == users[i].(password := "")
  {
    seq(|users|, i requires 0 <= i < |users| => users[i].(password := ""))
  }

  /** The notes the dashboard lists: the table newest first (`ORDER BY note_id
      DESC`), narrowed to those the user may see, then to those matching the
      current search criteria. */
  function ListedNotes(user: User, notes: seq<Note>, c: Criteria): seq<Note>
  {
    SearchResult(AccessibleNotes(user, Reverse(notes)), c)
  }

  /** A note is listed exactly when it is in the table, the user may see it and
      it matches the criteria. */
  lemma ListedMembership(user: User, notes: seq<Note>, c: Criteria, n: Note)
    ensures n in ListedNotes(user, notes, c) <==> n in notes && CanSee(user, n) && Matches(n, c)
  {
    var rev := Reverse(notes);
    SearchMembership(AccessibleNotes(user, rev), c, n);
    AccessibleMembership(user, rev, n);
    if n in notes {
      var i :| 0 <= i < |notes| && notes[i] == n;
      assert rev[|notes| - 1 - i] == n;
    }
    if n in rev {
      var i :| 0 <= i < |rev| && rev[i] == n;
      assert notes[|notes| - 1 - i] == n;
    }
  }

  /** No password hash reaches the page. */
  lemma ScrubbedHasNoPasswords(users: seq<User>)
    ensures forall u :: u in Scrubbed(users) ==> u.password == ""
    ensures forall i :: 0 <= i < |users| ==> Scrubbed(users)[i].id == users[i].id && Scrubbed(users)[i].username == users[i].username
  {
  }

  /** `isColleague`: scans the colleague list for the id. */
  method IsColleague(settings: UserSettings, id: Int32) returns (r: bool)
    ensures r <==> id in settings.colleagues
  {
    for i := 0 to |settings.colleagues|
      invariant id !in settings.colleagues[..i]
    {
      if settings.colleagues[i] == id {
        return true;
      }
    }
    assert settings.colleagues[..|settings.colleagues|] == settings.colleagues;
    return false;
  }

  /** `completedDate`: the completion day for a completed note, "N/A" otherwise. */
  function CompletedDate(note: Note): string
  {
    if note.flag == NoteFlagCompleted then ShortDate(note.completionDate) else "N/A"
  }

  /** The completion column reads "N/A" exactly for notes that are not
      completed; a completed note shows its completion day. */
  lemma CompletedDateIsNA(note: Note)
    ensures CompletedDate(note) == "N/A" <==> note.flag != NoteFlagCompleted
    ensures note.flag == NoteFlagCompleted ==> CompletedDate(note) == ShortDate(note.completionDate)
  {
    if note.flag == NoteFlagCompleted {
      var s := ShortDate(note.completionDate);
      assert s[0] == PadDecimal(note.completionDate.day, 2)[0];
      assert IsDigit(s[0]);
    }
  }

  /** `isNoteOwned`: the note belongs to the page's user. */
  predicate IsNoteOwned(user: User, note: Note)
  {
    note.owner == user.id
  }

  /** A user always sees their own notes, whatever they are shared with. */
  lemma OwnedNotesAreVisible(user: User, notes: seq<Note>, n: Note)
    requires n in notes && IsNoteOwned(user, n)
    ensures n in AccessibleNotes(user, notes)
  {
    AccessibleMembership(user, notes, n);
  }

  /** The labels `noteFlagToString` indexes; an index outside them makes the
      template panic, shown here as `None`. */
  const FlagLabels: seq<string> := ["Note", "In Progress", "Completed", "Cancelled", "Delegated"]

  function NoteFlagLabel(flag: int): (r: Option<string>)
    ensures r.Some? <==> 0 <= flag < NoteFlagMax
  {
    if 0 <= flag < |FlagLabels| then Some(FlagLabels[flag]) else None
  }

  /** Every flag the forms accept has a label except the negative ones, which
      the flag check lets through. */
  lemma AcceptedFlagLabel(raw: string)
    requires ParseFlag(raw).Some?
    ensures NoteFlagLabel(ParseFlag(raw).value).Some? <==> ParseFlag(raw).value >= 0
    ensures ParseFlag("-1") == Some(-1) && NoteFlagLabel(-1) == None
  {
    FlagCheck(-1);
    assert FormatInt(-1) == "-1";
  }

  /** The completed flag is labelled "Completed". */
  lemma CompletedLabel()
    ensures NoteFlagLabel(NoteFlagCompleted) == Some("Completed")
  {
  }

  /** `getUserName`: the name of the user with the id, blank for the
      placeholder user and for an id with no user. */
  function UserName(users: seq<User>, id: Int32): (r: string)
    ensures r != PlaceholderUser
    ensures forall i :: 0 <= i < |users| && users[i].id == id && (forall j :: 0 <= j < i ==> users[j].id != id) ==>
      r == (if users[i].username == PlaceholderUser then "" else users[i].username)
    ensures (forall i :: 0 <= i < |users| ==> users[i].id != id) ==> r == ""
    ensures r != "" ==> exists i :: 0 <= i < |users| && users[i].id == id && users[i].username == r
  {
    if users == [] then ""
    else if users[0].id == id then (if users[0].username == PlaceholderUser then "" else users[0].username)
    else
      var r := UserName(users[1..], id);
      assert forall i :: 1 <= i < |users| ==> users[i] == users[1..][i - 1];
      if r != "" then
        var i :| 0 <= i < |users[1..]| && users[1..][i].id == id && users[1..][i].username == r;
        assert users[i + 1] == users[1..][i];
        r
      else r
  }
}
