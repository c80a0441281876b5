/** The authentication decisions of auth.go: the session check every protected
    handler starts with, and the username and password policies of registration. */
module Auth {
  import opened Seqs
  import opened Records
  import opened Web
  import opened Validation

  /** The messages shown on the login and registration pages. */
  datatype AuthData = AuthData(logErrMsg: string, regErrMsg: string)

  const IncorrectUsername := "Incorrect Username"
  const IncorrectPassword := "Incorrect Password"
  const UsernameHasSpaces := "Username can't contain spaces"
  const PasswordTooWeak :=
    "Password must contain no spaces, atleast two numbers, and atleast 1 special character (e.g. '@')"
  const UserAlreadyExists := "User Already Exists."

  /** The session check: a session exists, its `count` is positive and its user
      name is not empty. */
  predicate LoggedIn(session: Option<Session>)
  {
    session.Some? && session.value.count > 0 && session.value.username != ""
  }

  /** `isAuthenticated`: a session exists, its `count` is positive and its user
      name is not empty. Otherwise a redirect to /login is written. */
  method IsAuthenticated(session: Option<Session>) returns (authenticated: bool, reply: Reply)
    ensures authenticated == LoggedIn(session)
    ensures authenticated ==> reply == Unwritten
    ensures !authenticated ==> reply == Redirect("/login")
  {
    authenticated := false;
    if session.Some? {
      var u := session.value.username;
      var c := session.value.count;
      if c > 0 && |u| > 0 {
        authenticated := true;
      }
    }
    reply := Unwritten;
    if !authenticated {
      reply := Redirect("/login");
    }
  }

  const Space: seq<char> := [' ']

  const DigitChars: seq<char> := ['1', '2', '3', '4', '5', '6', '7', '8', '9', '0']

  const SpecialChars: seq<char> :=
    ['`', '~', '!', '@', '#', '$', '%', '^', '&', '*',
     '(', ')', '-', '_', '+', '=', ':', ';', '"', '\'',
     ',', '<', '.', '>', '?', '/', '{', '}', '[', ']']

  /** At least two digits and at least one special character. */
  const PasswordRequirements: seq<Requirement> :=
    [Requirement(DigitChars, 2), Requirement(SpecialChars, 1)]

  /** The registration check on user names. */
  predicate UsernameAllowed(username: string)
  {
    Satisfies(username, Space, [])
  }

  /** The registration check on passwords. */
  predicate PasswordAllowed(password: string)
  {
    Satisfies(password, Space, PasswordRequirements)
  }

  /** A user name is accepted exactly when it has no space. */
  lemma UsernamePolicy(username: string)
    ensures UsernameAllowed(username) <==> ' ' !in username
  {
    if ' ' in username {
      var i :| 0 <= i < |username| && username[i] == ' ';
      assert username[i] in Space;
    }
  }

  lemma CharListsDistinct()
    ensures Distinct(DigitChars) && Distinct(SpecialChars)
  {
  }

  /** A password is accepted exactly when it has no space, at least two of its
      characters are digits and at least one is from the special list. */
  lemma PasswordPolicy(password: string)
    ensures PasswordAllowed(password) <==>
      && ' ' !in password
      && |Filter(c => c in DigitChars, password)| >= 2
      && |Filter(c => c in SpecialChars, password)| >= 1
  {
    CharListsDistinct();
    CountDistinct(password, DigitChars);
    CountDistinct(password, SpecialChars);
    var reqs := PasswordRequirements;
    assert |reqs| == 2 && reqs[0] == Requirement(DigitChars, 2) && reqs[1] == Requirement(SpecialChars, 1);
    assert (forall k :: 0 <= k < |reqs| ==> CountIn(password, reqs[k].requiredChar) >= reqs[k].amount)
      <==> CountIn(password, DigitChars) >= 2 && CountIn(password, SpecialChars) >= 1;
    if ' ' in password {
      var i :| 0 <= i < |password| && password[i] == ' ';
      assert password[i] in Space;
    }
  }
}
