/** The application state the HTTP handlers of handlers.go and auth.go read and
    change: the three tables, the global search criteria and the global login
    and registration messages. Each handler is a method; the request's session
    and form are parameters, and what the handler writes back is the `Reply`. */
module Server {
  import opened Seqs
  import opened Records
  import opened Strconv
  import opened Web
  import opened Visibility
  import opened Search
  import opened Share
  import opened Validation
  import opened Auth
  import opened Tables
  import opened Dashboard

  /** The search criteria the search form sets: text fields as given, the user
      and flag fields through `Atoi`, whose failure gives 0. */
  function FormCriteria(form: Form): Criteria
  {
    Criteria(
      FormValue(form, "search-by-keyword"),
      AtoiValue(FormValue(form, "search-by-user")),
      FormValue(form, "search-by-date"),
      AtoiValue(FormValue(form, "search-by-flags")))
  }

  /** A form that sends -1 for the user and the flag and leaves the text
      fields empty restores the unset criteria; a form whose fields are all
      empty does not: it selects user 0 and flag 0. */
  lemma SearchFormUnset(form: Form)
    ensures FormValue(form, "search-by-keyword") == "" && FormValue(form, "search-by-user") == "-1"
      && FormValue(form, "search-by-date") == "" && FormValue(form, "search-by-flags") == "-1"
      ==> FormCriteria(form) == Unset
    ensures FormCriteria(map[]) == Criteria("", 0, "", 0) != Unset
  {
    ParseFormatRoundTrip(-1);
    assert FormatInt(-1) == "-1";
  }

  /** The page a logged-in user's dashboard shows. */
  function DashboardView(users: seq<User>, settings: seq<UserSettings>, notes: seq<Note>, c: Criteria, name: string): DashboardData
  {
    var user := LookupUser(users, name);
    DashboardData(user, LookupSettings(settings, user.id), Scrubbed(OtherUsers(users, user)), ListedNotes(user, notes, c))
  }

  /** The share list a form yields for the user acting under `name`. */
  function FormShare(users: seq<User>, name: string, prefix: string, form: Form): seq<int>
  {
    ShareDetails(prefix, OtherUsers(users, LookupUser(users, name)), form)
  }

  /** Whether reading a form's share list for `name` reports an error. */
  predicate FormShareFails(users: seq<User>, name: string, prefix: string, form: Form)
  {
    var others := OtherUsers(users, LookupUser(users, name));
    !AllParse(prefix, SelectedUsers(prefix, others, form), form)
  }

  /** The note the create form adds for the user acting under `name`. */
  function CreatedNote(users: seq<User>, name: string, form: Form, flag: int, now: Date): Note
  {
    Note(LookupUser(users, name).id, FormShare(users, name, "create", form),
      TruncateName(FormValue(form, "create-note-name")), now, now, flag,
      FormValue(form, "create-note-content"))
  }

  /** The columns the edit form writes for the user acting under `name`. */
  function FormEdit(users: seq<User>, name: string, form: Form, flag: int, now: Date): NoteEdit
  {
    NoteEdit(FormShare(users, name, "edit", form), TruncateName(FormValue(form, "edit-note-name")),
      now, flag, FormValue(form, "edit-note-content"))
  }

  class App {
    /** `users`, in insertion order. */
    var users: seq<User>
    /** `user_settings`, in insertion order. */
    var settings: seq<UserSettings>
    /** `notes`, in insertion (`note_id`) order. */
    var notes: seq<Note>
    /** `searchByKeyword`, `searchByUser`, `searchByDate`, `searchByFlag`. */
    var criteria: Criteria
    /** `authData`. */
    var authData: AuthData

    /** Registration never lets two users share a name. */
    ghost predicate Valid()
      reads this
    {
      UniqueUsernames(users)
    }

    constructor ()
      ensures users == [] && settings == [] && notes == []
      ensures criteria == Unset && authData == AuthData("", "")
      ensures Valid()
    {
      users, settings, notes := [], [], [];
      criteria := Unset;
      authData := AuthData("", "");
    }

    /** `indexHandler`: a logged-in user is sent to the dashboard. */
    method IndexHandler(session: Option<Session>) returns (reply: Reply)
      ensures reply == if LoggedIn(session) then Redirect("/dashboard") else Redirect("/login")
    {
      var ok;
      ok, reply := IsAuthenticated(session);
      if !ok {
        return;
      }
      reply := Write(reply, Redirect("/dashboard"));
    }

    /** `dashboardHandler`: builds the page from the user's row and settings,
        the visible notes that match the criteria, and the other users without
        their password hashes. A missing user or settings row writes status
        500, and the page is built all the same. */
    method DashboardHandler(session: Option<Session>) returns (reply: Reply, data: Option<DashboardData>)
      ensures !LoggedIn(session) ==> reply == Redirect("/login") && data == None
      ensures LoggedIn(session) ==>
        var name := session.value.username;
        && data == Some(DashboardView(users, settings, notes, criteria, name))
        && reply == if FindUser(users, name).None? || FindSettings(settings, LookupUser(users, name).id).None?
                    then Failure(500) else Page("dashboard.html", "")
    {
      var ok;
      ok, reply := IsAuthenticated(session);
      if !ok {
        return reply, None;
      }
      var name := SessionUserName(session);
      var user := LookupUser(users, name);
      reply := CheckInternalServerError(FindUser(users, name).None?, reply);
      var userSettings := LookupSettings(settings, user.id);
      reply := CheckInternalServerError(FindSettings(settings, user.id).None?, reply);
      var visible := GetAccessibleNotes(user, Reverse(notes));
      var listed := SearchNotes(visible, criteria.keyword, criteria.user, criteria.date, criteria.flag);
      var others := OtherUsers(users, user);
      var rows := new User[|others|](i requires 0 <= i < |others| => others[i]);
      ClearUserPasswordHash(rows);
      assert rows[..] == Scrubbed(others);
      data := Some(DashboardData(user, userSettings, rows[..], listed));
      reply := Write(reply, Page("dashboard.html", ""));
    }

    /** `searchHandler`: replaces the global criteria with the form's. */
    method SearchHandler(session: Option<Session>, form: Form) returns (reply: Reply)
      modifies this`criteria
      ensures !LoggedIn(session) ==> reply == Redirect("/login") && criteria == old(criteria)
      ensures LoggedIn(session) ==> reply == Redirect("/dashboard") && criteria == FormCriteria(form)
    {
      var ok;
      ok, reply := IsAuthenticated(session);
      if !ok {
        return;
      }
      var keyword := FormValue(form, "search-by-keyword");
      var user := AtoiValue(FormValue(form, "search-by-user"));
      var date := FormValue(form, "search-by-date");
      var flag := AtoiValue(FormValue(form, "search-by-flags"));
      criteria := Criteria(keyword, user, date, flag);
      reply := Write(reply, Redirect("/dashboard"));
    }

    /** `createNoteHandler`: a bad flag writes status 500 and changes nothing;
        otherwise the note (name truncated, share list from the form, owned by
        the acting user, created and completed `now`) is inserted unless a
        note already has its name. */
    method CreateNoteHandler(session: Option<Session>, form: Form, now: Date) returns (reply: Reply)
      modifies this`notes
      ensures !LoggedIn(session) ==> reply == Redirect("/login") && notes == old(notes)
      ensures LoggedIn(session) && ParseFlag(FormValue(form, "create-note-flags")).None? ==>
        reply == Failure(500) && notes == old(notes)
      ensures LoggedIn(session) && ParseFlag(FormValue(form, "create-note-flags")).Some? ==>
        var name := session.value.username;
        var flag := ParseFlag(FormValue(form, "create-note-flags")).value;
        && notes == InsertIfAbsent(old(notes), CreatedNote(users, name, form, flag, now))
        && reply == if FindUser(users, name).None? || FormShareFails(users, name, "create", form)
                    then Failure(500) else Redirect("/dashboard")
    {
      var ok;
      ok, reply := IsAuthenticated(session);
      if !ok {
        return;
      }
      var name := SessionUserName(session);
      var user := LookupUser(users, name);
      reply := CheckInternalServerError(FindUser(users, name).None?, reply);
      var noteName := TruncateName(FormValue(form, "create-note-name"));
      var content := FormValue(form, "create-note-content");
      var flag := ParseFlag(FormValue(form, "create-note-flags"));
      if flag.None? {
        reply := CheckInternalServerError(true, reply);
        return;
      }
      var share, failed := GetShareDetails("create", OtherUsers(users, user), form);
      reply := CheckInternalServerError(failed, reply);
      if !NameExists(notes, noteName) {
        notes := notes + [Note(user.id, share, noteName, now, now, flag.value, content)];
      }
      reply := Write(reply, Redirect("/dashboard"));
    }

    /** `editNoteHandler`: a bad flag writes status 500 and changes nothing;
        otherwise, when some note has the selected name, every note with that
        name gets the form's share list, name, flag and content and is marked
        completed `now`, whoever owns it. */
    method EditNoteHandler(session: Option<Session>, form: Form, now: Date) returns (reply: Reply)
      modifies this`notes
      ensures !LoggedIn(session) ==> reply == Redirect("/login") && notes == old(notes)
      ensures LoggedIn(session) && ParseFlag(FormValue(form, "edit-note-flags")).None? ==>
        reply == Failure(500) && notes == old(notes)
      ensures LoggedIn(session) && ParseFlag(FormValue(form, "edit-note-flags")).Some? ==>
        var name := session.value.username;
        var flag := ParseFlag(FormValue(form, "edit-note-flags")).value;
        && notes == EditRows(old(notes), FormValue(form, "edit-select-note"), FormEdit(users, name, form, flag, now))
        && reply == if FindUser(users, name).None? || FormShareFails(users, name, "edit", form)
                    then Failure(500) else Redirect("/dashboard")
    {
      var ok;
      ok, reply := IsAuthenticated(session);
      if !ok {
        return;
      }
      var name := SessionUserName(session);
      var user := LookupUser(users, name);
      reply := CheckInternalServerError(FindUser(users, name).None?, reply);
      var target := FormValue(form, "edit-select-note");
      var editedName := TruncateName(FormValue(form, "edit-note-name"));
      var content := FormValue(form, "edit-note-content");
      var flag := ParseFlag(FormValue(form, "edit-note-flags"));
      if flag.None? {
        reply := CheckInternalServerError(true, reply);
        return;
      }
      var share, failed := GetShareDetails("edit", OtherUsers(users, user), form);
      reply := CheckInternalServerError(failed, reply);
      if NameExists(notes, target) {
        notes := EditRows(notes, target, NoteEdit(share, editedName, now, flag.value, content));
      } else {
        EditAbsentIsNoOp(notes, target, NoteEdit(share, editedName, now, flag.value, content));
      }
      reply := Write(reply, Redirect("/dashboard"));
    }

    /** `deleteNoteHandler`: removes the notes with the selected name that the
        acting user owns. */
    method DeleteNoteHandler(session: Option<Session>, form: Form) returns (reply: Reply)
      modifies this`notes
      ensures !LoggedIn(session) ==> reply == Redirect("/login") && notes == old(notes)
      ensures LoggedIn(session) ==>
        var name := session.value.username;
        && notes == DeleteRows(old(notes), FormValue(form, "delete-select-note"), LookupUser(users, name).id)
        && reply == if FindUser(users, name).None? then Failure(500) else Redirect("/dashboard")
    {
      var ok;
      ok, reply := IsAuthenticated(session);
      if !ok {
        return;
      }
      var name := SessionUserName(session);
      var user := LookupUser(users, name);
      reply := CheckInternalServerError(FindUser(users, name).None?, reply);
      var target := FormValue(form, "delete-select-note");
      if NameExists(notes, target) {
        notes := DeleteRows(notes, target, user.id);
      } else {
        DeleteOthersNoteIsNoOp(notes, target, user.id);
      }
      reply := Write(reply, Redirect("/dashboard"));
    }

    /** `editSettingsHandler`: stores the form's colleague list in the user's
        settings row, unless its first entry is -1 (nobody selected), in which
        case nothing is written back at all. */
    method EditSettingsHandler(session: Option<Session>, form: Form) returns (reply: Reply)
      modifies this`settings
      ensures !LoggedIn(session) ==> reply == Redirect("/login") && settings == old(settings)
      ensures LoggedIn(session) ==>
        var name := session.value.username;
        var colleagues := FormShare(users, name, "settings", form);
        var failed := FindUser(users, name).None? || FormShareFails(users, name, "settings", form);
        if !StoresColleagues(colleagues) then
          settings == old(settings) && reply == if failed then Failure(500) else Unwritten
        else
          var userId := LookupUser(users, name).id;
          && settings == UpdateColleagues(old(settings), LookupSettings(old(settings), userId).id, colleagues)
          && reply == if failed || FindSettings(old(settings), userId).None? then Failure(500) else Redirect("/dashboard")
    {
      var ok;
      ok, reply := IsAuthenticated(session);
      if !ok {
        return;
      }
      var name := SessionUserName(session);
      var user := LookupUser(users, name);
      reply := CheckInternalServerError(FindUser(users, name).None?, reply);
      var colleagues, failed := GetShareDetails("settings", OtherUsers(users, user), form);
      reply := CheckInternalServerError(failed, reply);
      if colleagues[0] == -1 {
        return;
      }
      var row := LookupSettings(settings, user.id);
      reply := CheckInternalServerError(FindSettings(settings, user.id).None?, reply);
      settings := UpdateColleagues(settings, row.id, colleagues);
      reply := Write(reply, Redirect("/dashboard"));
    }

    /** `loginHandler`. A GET shows the page with the current message and then
        clears it. A POST looks the user up by name and checks the password
        against the stored hash (`passwordMatches` stands for bcrypt's
        comparison); success clears the message and opens a session with
        count 1, failure sets the message and opens none. Since user names
        are unique, the session is for the one user with the name given. */
    method LoginHandler(httpMethod: string, form: Form, passwordMatches: (string, string) -> bool)
      returns (reply: Reply, session: Option<Session>)
      requires Valid()
      modifies this`authData
      ensures Valid()
      ensures session.Some? ==> forall i :: 0 <= i < |users| && users[i].username == FormValue(form, "username") ==>
        users[i].id == session.value.userId && users[i].username == session.value.username
      ensures httpMethod != "POST" ==>
        reply == Page("login.html", old(authData).logErrMsg) && session == None
        && authData == old(authData).(logErrMsg := "")
      ensures httpMethod == "POST" ==>
        var found := FindUser(users, FormValue(form, "username"));
        if found.None? then
          reply == Redirect("/login") && session == None
          && authData == old(authData).(logErrMsg := IncorrectUsername)
        else if !passwordMatches(found.value.password, FormValue(form, "password")) then
          reply == Redirect("/login") && session == None
          && authData == old(authData).(logErrMsg := IncorrectPassword)
        else
          reply == Redirect("/dashboard") && session == Some(Session(found.value.username, found.value.id, 1))
          && authData == old(authData).(logErrMsg := "")
    {
      session := None;
      if httpMethod != "POST" {
        reply := Page("login.html", authData.logErrMsg);
        authData := authData.(logErrMsg := "");
        return;
      }
      var username := FormValue(form, "username");
      var password := FormValue(form, "password");
      var found := FindUser(users, username);
      if found.None? {
        authData := authData.(logErrMsg := IncorrectUsername);
        reply := Redirect("/login");
        return;
      }
      var user := found.value;
      if !passwordMatches(user.password, password) {
        authData := authData.(logErrMsg := IncorrectPassword);
        reply := Redirect("/login");
        return;
      }
      authData := authData.(logErrMsg := "");
      session := Some(Session(user.username, user.id, 1));
      reply := Redirect("/dashboard");
    }

    /** `registerHandler`. A GET shows the page with the current message and
        then clears it. A POST checks the user name, then the password, then
        that the name is free, setting the matching message on the first
        failure; otherwise it stores the user with `hashedPassword` (bcrypt's
        output) and an empty colleague list. `hashFailed` says whether bcrypt
        reported an error: bcrypt then returns no hash, and the handler writes
        status 500 but carries on and stores the rows all the same, the user
        with no password hash (the empty string here), so the redirect is never
        sent. Either way the login lookup then finds the new user.
        `newUserId` and `newSettingId` are the ids the database assigns to the
        two new rows. */
    method RegisterHandler(httpMethod: string, form: Form, hashedPassword: string, hashFailed: bool,
                           newUserId: Int32, newSettingId: Int32)
      returns (reply: Reply)
      requires Valid()
      modifies this`authData, this`users, this`settings
      ensures Valid()
      ensures httpMethod != "POST" ==>
        reply == Page("register.html", old(authData).regErrMsg)
        && authData == old(authData).(regErrMsg := "") && users == old(users) && settings == old(settings)
      ensures httpMethod == "POST" ==>
        var username := FormValue(form, "username");
        var password := FormValue(form, "password");
        if !UsernameAllowed(username) then
          reply == Redirect("/register") && authData == old(authData).(regErrMsg := UsernameHasSpaces)
          && users == old(users) && settings == old(settings)
        else if !PasswordAllowed(password) then
          reply == Redirect("/register") && authData == old(authData).(regErrMsg := PasswordTooWeak)
          && users == old(users) && settings == old(settings)
        else if FindUser(old(users), username).Some? then
          reply == Redirect("/register") && authData == old(authData).(regErrMsg := UserAlreadyExists)
          && users == old(users) && settings == old(settings)
        else
          reply == (if hashFailed then Failure(500) else Redirect("/login"))
          && authData == old(authData).(regErrMsg := "")
          && users == old(users) + [User(newUserId, username, if hashFailed then "" else hashedPassword)]
          && FindUser(users, username) == Some(User(newUserId, username, if hashFailed then "" else hashedPassword))
          && settings == old(settings) + [UserSettings(newSettingId, newUserId, [])]
    {
      if httpMethod != "POST" {
        reply := Page("register.html", authData.regErrMsg);
        authData := authData.(regErrMsg := "");
        return;
      }
      var username := FormValue(form, "username");
      var password := FormValue(form, "password");
      var usernameOk := ValidateString(username, Space, []);
      if !usernameOk {
        authData := authData.(regErrMsg := UsernameHasSpaces);
        return Redirect("/register");
      }
      var passwordOk := ValidateString(password, Space, PasswordRequirements);
      if !passwordOk {
        authData := authData.(regErrMsg := PasswordTooWeak);
        return Redirect("/register");
      }
      if FindUser(users, username).Some? {
        authData := authData.(regErrMsg := UserAlreadyExists);
        return Redirect("/register");
      }
      authData := authData.(regErrMsg := "");
      reply := CheckInternalServerError(hashFailed, Unwritten);
      var user := User(newUserId, username, if hashFailed then "" else hashedPassword);
      assert forall i :: 0 <= i < |users| ==> users[i].username != username;
      FindUserAppended(users, user);
      users := users + [user];
      settings := settings + [UserSettings(newSettingId, newUserId, [])];
      reply := Write(reply, Redirect("/login"));
    }
  }

  /** The empty user name passes the registration check, yet a session opened
      for it never counts as logged in. */
  lemma EmptyUsernameNeverLoggedIn(id: Int32)
    ensures UsernameAllowed("")
    ensures !LoggedIn(Some(Session("", id, 1)))
  {
  }

  /** A session opened by a login is logged in exactly when the name is not empty. */
  lemma LoginSessionIsLoggedIn(u: User)
    ensures LoggedIn(Some(Session(u.username, u.id, 1))) <==> u.username != ""
  {
  }
}
