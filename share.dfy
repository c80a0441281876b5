/** Reading the share check-boxes of a form (`getShareDetails`) and scrubbing
    password hashes before user rows reach a page (`clearUserPasswordHash`),
    both in handler-helper.go. */
module Share {
  import opened Seqs
  import opened Records
  import opened Strconv
  import opened Web
  import opened Visibility

  /** The form field that holds the share choice for user `u`. */
  function ShareKey(prefix: string, u: User): string
  {
    prefix + "-" + u.username
  }

  predicate Selected(prefix: string, form: Form, u: User)
  {
    FormValue(form, ShareKey(prefix, u)) != ""
  }

  /** The users with a non-empty field, in the order given. */
  function SelectedUsers(prefix: string, others: seq<User>, form: Form): seq<User>
  {
    Filter(u => Selected(prefix, form, u), others)
  }

  /** The `Atoi` value of each listed user's field. */
  function ShareValues(prefix: string, users: seq<User>, form: Form): (r: seq<int>)
    ensures |r| == |users|
  {
    if users == [] then []
    else
      var last := AtoiValue(FormValue(form, ShareKey(prefix, users[|users| - 1])));
      ShareValues(prefix, users[..|users| - 1], form) + [last]
  }

  /** Every listed user's field parses as an integer. */
  predicate AllParse(prefix: string, users: seq<User>, form: Form)
  {
    forall k :: 0 <= k < |users| ==> ParseInt(FormValue(form, ShareKey(prefix, users[k]))).Ok?
  }

  /** The share list built from the form: one value per selected user, or the
      single entry -1 when nobody is selected. */
  function ShareDetails(prefix: string, others: seq<User>, form: Form): seq<int>
  {
    var values := ShareValues(prefix, SelectedUsers(prefix, others, form), form);
    if values == [] then [-1] else values
  }

  /** `getShareDetails`: appends the `Atoi` value of every non-empty field. A
      value that does not parse is reported (`failed`) and still appended. */
  method GetShareDetails(prefix: string, others: seq<User>, form: Form)
    returns (share: seq<int>, failed: bool)
    ensures share != []
    ensures share == ShareDetails(prefix, others, form)
    ensures failed <==> !AllParse(prefix, SelectedUsers(prefix, others, form), form)
  {
    share, failed := [], false;
    for i := 0 to |others|
      invariant share == ShareValues(prefix, SelectedUsers(prefix, others[..i], form), form)
      invariant failed <==> !AllParse(prefix, SelectedUsers(prefix, others[..i], form), form)
    {
      var u := others[i];
      SelectedUsersStep(prefix, others, form, i);
      ghost var sel := SelectedUsers(prefix, others[..i], form);
      var value := FormValue(form, ShareKey(prefix, u));
      if value != "" {
        assert SelectedUsers(prefix, others[..i + 1], form) == sel + [u];
        SelectOneMore(prefix, sel, u, form);
        if !ParseInt(value).Ok? {
          failed := true;
        }
        share := share + [AtoiValue(value)];
      } else {
        assert SelectedUsers(prefix, others[..i + 1], form) == sel;
      }
    }
    assert others[..|others|] == others;
    if |share| == 0 {
      share := share + [-1];
    }
  }

  lemma SelectedUsersStep(prefix: string, others: seq<User>, form: Form, i: int)
    requires 0 <= i < |others|
    ensures SelectedUsers(prefix, others[..i + 1], form)
         == SelectedUsers(prefix, others[..i], form) + (if Selected(prefix, form, others[i]) then [others[i]] else [])
  {
    assert others[..i + 1][..i] == others[..i];
  }

  lemma SelectOneMore(prefix: string, sel: seq<User>, u: User, form: Form)
    ensures ShareValues(prefix, sel + [u], form)
         == ShareValues(prefix, sel, form) + [AtoiValue(FormValue(form, ShareKey(prefix, u)))]
    ensures AllParse(prefix, sel + [u], form)
        <==> AllParse(prefix, sel, form) && ParseInt(FormValue(form, ShareKey(prefix, u))).Ok?
  {
    assert (sel + [u])[..|sel|] == sel;
    assert forall k :: 0 <= k < |sel| ==> (sel + [u])[k] == sel[k];
  }

  lemma {:induction false} ShareValuesAt(prefix: string, users: seq<User>, form: Form, k: int)
    requires 0 <= k < |users|
    ensures ShareValues(prefix, users, form)[k] == AtoiValue(FormValue(form, ShareKey(prefix, users[k])))
  {
    if k < |users| - 1 {
      ShareValuesAt(prefix, users[..|users| - 1], form, k);
    }
  }

  /** Nobody selected: the share list is exactly `[-1]`, never empty. */
  lemma ShareNoSelection(prefix: string, others: seq<User>, form: Form)
    requires forall i :: 0 <= i < |others| ==> FormValue(form, ShareKey(prefix, others[i])) == ""
    ensures ShareDetails(prefix, others, form) == [-1]
  {
    FilterNonePass(u => Selected(prefix, form, u), others);
  }

  /** Somebody selected: one entry per selected user, in the order of `others`,
      each the `Atoi` value of that user's field. */
  lemma ShareWithSelection(prefix: string, others: seq<User>, form: Form)
    requires exists i :: 0 <= i < |others| && Selected(prefix, form, others[i])
    ensures var sel := SelectedUsers(prefix, others, form);
      && |ShareDetails(prefix, others, form)| == |sel| > 0
      && (forall k :: 0 <= k < |sel| ==>
            ShareDetails(prefix, others, form)[k] == AtoiValue(FormValue(form, ShareKey(prefix, sel[k]))))
      && Embeds(sel, others, FilterIndices(u => Selected(prefix, form, u), others))
  {
    var sel := SelectedUsers(prefix, others, form);
    var i :| 0 <= i < |others| && Selected(prefix, form, others[i]);
    FilterMembership(u => Selected(prefix, form, u), others, others[i]);
    FilterEmbeds(u => Selected(prefix, form, u), others);
    forall k | 0 <= k < |sel| {
      ShareValuesAt(prefix, sel, form, k);
    }
  }

  /** A selected field that is not a number contributes 0 to the share list. */
  lemma UnparsableShareIsZero(prefix: string, others: seq<User>, form: Form, k: int)
    requires 0 <= k < |SelectedUsers(prefix, others, form)|
    requires ParseInt(FormValue(form, ShareKey(prefix, SelectedUsers(prefix, others, form)[k]))) == SyntaxError
    ensures ShareDetails(prefix, others, form)[k] == 0
  {
    ShareValuesAt(prefix, SelectedUsers(prefix, others, form), form, k);
  }

  /** The share list is `[-1]` when nobody is selected, and otherwise only when
      exactly one user is selected and that field reads -1. */
  lemma ShareIsMinusOne(prefix: string, others: seq<User>, form: Form)
    ensures var sel := SelectedUsers(prefix, others, form);
      ShareDetails(prefix, others, form) == [-1] <==>
        sel == [] || (|sel| == 1 && AtoiValue(FormValue(form, ShareKey(prefix, sel[0]))) == -1)
  {
    var sel := SelectedUsers(prefix, others, form);
    if sel != [] {
      ShareValuesAt(prefix, sel, form, 0);
    }
  }

  /** A note stored with the share list of an empty selection is visible to a
      user (whose id is not -1) only when that user owns it: the "empty share
      list is public" rule never applies to it. */
  lemma UnsharedNoteIsPrivate(prefix: string, others: seq<User>, form: Form, note: Note, user: User)
    requires forall i :: 0 <= i < |others| ==> FormValue(form, ShareKey(prefix, others[i])) == ""
    requires note.share == ShareDetails(prefix, others, form)
    requires user.id != -1
    ensures note.share != []
    ensures CanSee(user, note) <==> note.owner == user.id
  {
    ShareNoSelection(prefix, others, form);
  }

  /** `clearUserPasswordHash`: blanks the password of every row in place. */
  method ClearUserPasswordHash(users: array<User>)
    modifies users
    ensures forall i :: 0 <= i < users.Length ==> users[i] == old(users[i]).(password := "")
  {
    for i := 0 to users.Length
      invariant forall k :: 0 <= k < i ==> users[k] == old(users[k]).(password := "")
      invariant forall k :: i <= k < users.Length ==> users[k] == old(users[k])
    {
      users[i] := users[i].(password := "");
    }
  }
}
