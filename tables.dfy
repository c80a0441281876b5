/** The decisions the note handlers (handlers.go) take on the `notes`,
    `users` and `user_settings` tables, with each table kept in memory as a
    sequence of rows in insertion order: the flag and name checks of the
    create and edit forms, insert-if-absent, update by name, delete by name and
    owner, the colleague update, and the single-row lookups the handlers make. */
module Tables {
  import opened Seqs
  import opened Text
  import opened Records
  import opened Strconv
  import opened Web

  /** The user name rows are never shown under. */
  const PlaceholderUser := "__placeholder__user__"

  /** The user name looked up when a request carries no session. */
  const GuestName := "[guest]"

  // ---------------------------------------------------------------- form checks

  /** The flag check of the create and edit forms: the field must parse with
      `Atoi` and the value must be below `NoteFlagMax`. Nothing bounds it from
      below. */
  function ParseFlag(raw: string): (r: Option<int>)
    ensures r.Some? <==> ParseInt(raw).Ok? && ParseInt(raw).value < NoteFlagMax
    ensures r.Some? ==> r.value == ParseInt(raw).value && MinInt64 <= r.value < NoteFlagMax
  {
    match ParseInt(raw)
    case Ok(v) => ParseIntOk(raw, v); if v < NoteFlagMax then Some(v) else None
    case _ => None
  }

  /** A flag written in decimal passes exactly when it is below `NoteFlagMax`,
      negative values included; text that is not a number never passes. */
  lemma FlagCheck(v: int)
    requires MinInt64 <= v <= MaxInt64
    ensures ParseFlag(FormatInt(v)) == if v < NoteFlagMax then Some(v) else None
    ensures ParseFlag("") == None && ParseFlag("-") == None
  {
    ParseFormatRoundTrip(v);
  }

  /** The stored name: the first `NoteNameMaxLength` characters of the field. */
  function TruncateName(raw: string): (r: string)
    ensures |r| <= NoteNameMaxLength
    ensures r <= raw
    ensures |raw| <= NoteNameMaxLength ==> r == raw
    ensures |raw| > NoteNameMaxLength ==> |r| == NoteNameMaxLength
  {
    raw[..if |raw| < NoteNameMaxLength then |raw| else NoteNameMaxLength]
  }

  /** Truncating a stored name again changes nothing. */
  lemma TruncateIdempotent(raw: string)
    ensures TruncateName(TruncateName(raw)) == TruncateName(raw)
  {
  }

  // ------------------------------------------------------------------- lookups

  /** The first user row with the given name (`WHERE username=$1`). */
  function FindUser(users: seq<User>, name: string): (r: Option<User>)
    ensures r.Some? ==> r.value in users && r.value.username == name
    ensures r.None? <==> forall i :: 0 <= i < |users| ==> users[i].username != name
  {
    if users == [] then None
    else if users[0].username == name then Some(users[0])
    else FindUser(users[1..], name)
  }

  /** A user appended under a name no row has is the one found by that name. */
  lemma {:induction false} FindUserAppended(users: seq<User>, u: User)
    requires FindUser(users, u.username).None?
    ensures FindUser(users + [u], u.username) == Some(u)
  {
    if users != [] {
      assert (users + [u])[1..] == users[1..] + [u];
      FindUserAppended(users[1..], u);
    }
  }

  /** No two users share a name. */
  predicate UniqueUsernames(users: seq<User>)
  {
    forall i, j :: 0 <= i < j < |users| ==> users[i].username != users[j].username
  }

  /** Go's `User{}`, returned when a lookup finds no row. */
  const NoUser := User(0, "", "")

  /** The row `fetchCurrentUser` scans: the named user, or the zero user. */
  function LookupUser(users: seq<User>, name: string): User
  {
    match FindUser(users, name)
    case Some(u) => u
    case None => NoUser
  }

  /** The user name a request acts for: the session's, or the guest name. */
  function SessionUserName(session: Option<Session>): string
  {
    if session.Some? then session.value.username else GuestName
  }

  /** The first settings row of a user (`WHERE user_id=$1`). */
  function FindSettings(settings: seq<UserSettings>, userId: Int32): (r: Option<UserSettings>)
    ensures r.Some? ==> r.value in settings && r.value.userId == userId
    ensures r.None? <==> forall i :: 0 <= i < |settings| ==> settings[i].userId != userId
  {
    if settings == [] then None
    else if settings[0].userId == userId then Some(settings[0])
    else FindSettings(settings[1..], userId)
  }

  /** The row `fetchUserSettings` scans: the user's settings, or `UserSettings{}`. */
  function LookupSettings(settings: seq<UserSettings>, userId: Int32): UserSettings
  {
    match FindSettings(settings, userId)
    case Some(s) => s
    case None => UserSettings(0, 0, [])
  }

  predicate IsOtherUser(exclude: User, u: User)
  {
    u.username != exclude.username && u.username != PlaceholderUser
  }

  /** `fetchUsersExclude`: every user but the excluded one and the placeholder. */
  function OtherUsers(users: seq<User>, exclude: User): seq<User>
  {
    Filter(u => IsOtherUser(exclude, u), users)
  }

  /** The other users are exactly the rows named neither like the excluded user
      nor like the placeholder, each as often as in the table, and in the order
      of the sequence given (the query itself promises no order). */
  lemma OtherUsersMembership(users: seq<User>, exclude: User, u: User)
    ensures u in OtherUsers(users, exclude) <==>
      u in users && u.username != exclude.username && u.username != PlaceholderUser
    ensures multiset(OtherUsers(users, exclude))[u] == if IsOtherUser(exclude, u) then multiset(users)[u] else 0
    ensures Embeds(OtherUsers(users, exclude), users, FilterIndices(u => IsOtherUser(exclude, u), users))
  {
    FilterMembership(u => IsOtherUser(exclude, u), users, u);
    FilterMultiplicity(u => IsOtherUser(exclude, u), users, u);
    FilterEmbeds(u => IsOtherUser(exclude, u), users);
  }

  // -------------------------------------------------------------------- notes

  predicate NameExists(notes: seq<Note>, name: string)
  {
    exists i :: 0 <= i < |notes| && notes[i].name == name
  }

  /** No two notes share a name. */
  predicate UniqueNames(notes: seq<Note>)
  {
    forall i, j :: 0 <= i < j < |notes| ==> notes[i].name != notes[j].name
  }

  /** The insert of the create form: the note is added only when no note
      already has its name. */
  function InsertIfAbsent(notes: seq<Note>, note: Note): (r: seq<Note>)
    ensures NameExists(notes, note.name) ==> r == notes
    ensures !NameExists(notes, note.name) ==> |r| == |notes| + 1 && r[..|notes|] == notes && r[|notes|] == note
  {
    if NameExists(notes, note.name) then notes else notes + [note]
  }

  /** Inserting only absent names keeps names unique, and afterwards the name
      is always present. */
  lemma InsertKeepsNamesUnique(notes: seq<Note>, note: Note)
    requires UniqueNames(notes)
    ensures UniqueNames(InsertIfAbsent(notes, note))
    ensures NameExists(InsertIfAbsent(notes, note), note.name)
  {
    var r := InsertIfAbsent(notes, note);
    if !NameExists(notes, note.name) {
      assert r[|notes|].name == note.name;
    } else {
      var i :| 0 <= i < |notes| && notes[i].name == note.name;
      assert r[i].name == note.name;
    }
  }

  /** The columns the edit form overwrites. */
  datatype NoteEdit = NoteEdit(share: seq<int>, name: string, completionDate: Date, flag: int, content: string)

  function ApplyEdit(n: Note, e: NoteEdit): Note
  {
    n.(share := e.share, name := e.name, completionDate := e.completionDate, flag := e.flag, content := e.content)
  }

  /** `UPDATE notes SET ... WHERE note_name=$6`: every note with the target
      name is overwritten, whoever owns it. */
  function EditRows(notes: seq<Note>, target: string, e: NoteEdit): (r: seq<Note>)
    ensures |r| == |notes|
    ensures forall i :: 0 <= i < |notes| ==> r[i] == if notes[i].name == target then ApplyEdit(notes[i], e) else notes[i]
  {
    seq(|notes|, i requires 0 <= i < |notes| => if notes[i].name == target then ApplyEdit(notes[i], e) else notes[i])
  }

  /** An edit never changes a note's owner or creation day, nor any note with
      another name; every note with the target name ends with the edited
      columns. */
  lemma EditKeepsOwnerAndDate(notes: seq<Note>, target: string, e: NoteEdit, i: int)
    requires 0 <= i < |notes|
    ensures EditRows(notes, target, e)[i].owner == notes[i].owner
    ensures EditRows(notes, target, e)[i].date == notes[i].date
    ensures notes[i].name != target ==> EditRows(notes, target, e)[i] == notes[i]
    ensures notes[i].name == target ==>
      var n := EditRows(notes, target, e)[i];
      n.share == e.share && n.name == e.name && n.completionDate == e.completionDate
      && n.flag == e.flag && n.content == e.content
  {
  }

  /** Editing a name that no note has leaves the table as it was. */
  lemma EditAbsentIsNoOp(notes: seq<Note>, target: string, e: NoteEdit)
    requires !NameExists(notes, target)
    ensures EditRows(notes, target, e) == notes
  {
  }

  /** Nothing checks who owns the edited note: a user edits another user's note,
      and renaming a note to a name in use leaves two notes with that name. */
  lemma EditIgnoresOwnership(a: Note, b: Note)
    requires a.name == "a" && b.name == "b" && a.owner != b.owner
    ensures UniqueNames([a, b])
    ensures var r := EditRows([a, b], "a", NoteEdit(a.share, "b", a.completionDate, a.flag, a.content));
      r[0].owner == a.owner && r[0].name == "b" && !UniqueNames(r)
  {
    var r := EditRows([a, b], "a", NoteEdit(a.share, "b", a.completionDate, a.flag, a.content));
    assert r[0].name == r[1].name;
  }

  predicate DeletedBy(n: Note, name: string, owner: Int32)
  {
    n.name == name && n.owner == owner
  }

  /** `DELETE FROM notes WHERE note_name=$1 AND note_owner=$2`. */
  function DeleteRows(notes: seq<Note>, name: string, owner: Int32): seq<Note>
  {
    Filter(n => !DeletedBy(n, name, owner), notes)
  }

  /** A note survives a delete exactly when it does not both carry the name
      and belong to the deleting user; survivors keep their order and count. */
  lemma DeleteMembership(notes: seq<Note>, name: string, owner: Int32, n: Note)
    ensures n in DeleteRows(notes, name, owner) <==> n in notes && !(n.name == name && n.owner == owner)
    ensures multiset(DeleteRows(notes, name, owner))[n] == if DeletedBy(n, name, owner) then 0 else multiset(notes)[n]
    ensures Embeds(DeleteRows(notes, name, owner), notes, FilterIndices(n => !DeletedBy(n, name, owner), notes))
  {
    FilterMembership(n => !DeletedBy(n, name, owner), notes, n);
    FilterMultiplicity(n => !DeletedBy(n, name, owner), notes, n);
    FilterEmbeds(n => !DeletedBy(n, name, owner), notes);
  }

  /** A user cannot delete a note that is not theirs: when every note with the
      name belongs to someone else, the table is unchanged. */
  lemma DeleteOthersNoteIsNoOp(notes: seq<Note>, name: string, owner: Int32)
    requires forall i :: 0 <= i < |notes| && notes[i].name == name ==> notes[i].owner != owner
    ensures DeleteRows(notes, name, owner) == notes
  {
    FilterAllPass(n => !DeletedBy(n, name, owner), notes);
  }

  // ----------------------------------------------------------------- settings

  /** Whether the settings form stores its colleague list: not when the first
      entry is -1, which is what an empty selection yields. */
  predicate StoresColleagues(colleagues: seq<int>)
  {
    colleagues != [] && colleagues[0] != -1
  }

  /** `UPDATE user_settings SET colleagues=$1 WHERE setting_id=$2`. */
  function UpdateColleagues(settings: seq<UserSettings>, settingId: Int32, colleagues: seq<int>): (r: seq<UserSettings>)
    ensures |r| == |settings|
    ensures forall i :: 0 <= i < |settings| ==>
      r[i] == if settings[i].id == settingId then settings[i].(colleagues := colleagues) else settings[i]
  {
    seq(|settings|, i requires 0 <= i < |settings| =>
      if settings[i].id == settingId then settings[i].(colleagues := colleagues) else settings[i])
  }

  /** A stored colleague list is never empty and never starts with -1: the form
      cannot clear a list once it has been set. */
  lemma StoredColleaguesNonEmpty(settings: seq<UserSettings>, settingId: Int32, colleagues: seq<int>, i: int)
    requires StoresColleagues(colleagues)
    requires 0 <= i < |settings| && settings[i].id == settingId
    ensures var c := UpdateColleagues(settings, settingId, colleagues)[i].colleagues;
      c != [] && c[0] != -1
  {
  }

  /** Reading the settings back after the update: the user's settings row, as
      the lookup finds it, carries the new list when it is the row updated and
      is unchanged otherwise; a user without settings still has none. */
  lemma {:induction false} UpdatedSettingsReadBack(settings: seq<UserSettings>, settingId: Int32, colleagues: seq<int>, userId: Int32)
    ensures FindSettings(UpdateColleagues(settings, settingId, colleagues), userId) ==
      match FindSettings(settings, userId)
      case Some(row) => Some(if row.id == settingId then row.(colleagues := colleagues) else row)
      case None => None
  {
    if settings != [] {
      var r := UpdateColleagues(settings, settingId, colleagues);
      assert r[1..] == UpdateColleagues(settings[1..], settingId, colleagues);
      UpdatedSettingsReadBack(settings[1..], settingId, colleagues, userId);
    }
  }
}
