/**
 * Account handlers of ecoapp/views.py: registration and the two-step password
 * reset, which carries the chosen user's key in the session between the steps.
 */
module AuthViews {
  import opened Options
  import opened Seqs
  import opened Models
  import opened Http
  import Forms
  import Signals
  import Integrity
  import Accounts

  /** The per-browser session store. */
  type Session = map<string, nat>

  const ResetKey: string := "reset_user_id"

  /** `request.session.get('reset_user_id')` is truthy: present and not zero. */
  predicate HasResetTarget(session: Session) {
    ResetKey in session && session[ResetKey] != 0
  }

  /** What step one answers: it reads the users but never writes the store. */
  datatype Reply = Reply(response: Response, session: Session)

  /** What step two answers, with the store it leaves behind. */
  datatype Step = Step(response: Response, store: Store, session: Session)

  /** `User.objects.filter(username=..., email=...)`: both must match exactly. */
  function CredentialMatches(users: seq<User>, c: Forms.Credentials): (r: seq<User>)
    ensures forall u :: u in r <==> u in users && u.username == c.username && u.email == c.email
    ensures forall u :: multiset(r)[u] == if u.username == c.username && u.email == c.email then multiset(users)[u] else 0
  {
    Filter(users, (u: User) => u.username == c.username && u.email == c.email)
  }

  /**
   * Step one (`CustomPasswordRequestView.post`): remember the one user with
   * exactly this username and email. No match re-renders the form with an
   * error; more than one match is the `MultipleObjectsReturned` failure of `get`.
   */
  function PasswordRequestPost(s: Store, session: Session, username: Option<string>, email: Option<string>): (r: Reply)
    ensures r.session - {ResetKey} == session - {ResetKey}
    ensures r.response == Redirect(PasswordReset) ==>
              && ResetKey in r.session
              && exists u :: u in s.users && u.id == r.session[ResetKey]
                   && u.username == Forms.Stripped(username) && u.email == Forms.Stripped(email)
    ensures r.response != Redirect(PasswordReset) ==> r.session == session
  {
    match Forms.ValidatePasswordRequest(username, email)
    case Rejected(_) => Reply(Render(PasswordRequestPage), session)
    case Valid(c) =>
      RememberMatchOnlySetsKey(s.users, c, session);
      RememberMatch(s.users, c, session)
  }

  /** The lookup of step one, once the form is valid. */
  function RememberMatch(users: seq<User>, c: Forms.Credentials, session: Session): (r: Reply)
    ensures r.response == Redirect(PasswordReset) ==>
              && ResetKey in r.session
              && exists u :: u in users && u.id == r.session[ResetKey] && u.username == c.username && u.email == c.email
    ensures r.response != Redirect(PasswordReset) ==> r.session == session
  {
    var m := CredentialMatches(users, c);
    if |m| == 0 then Reply(RenderWithError(PasswordRequestPage), session)
    else if |m| > 1 then Reply(ServerError, session)
    else Reply(Redirect(PasswordReset), session[ResetKey := m[0].id])
  }

  /** Usernames are unique, so a user's own username and email match that user alone. */
  lemma CredentialMatchIsThatUser(users: seq<User>, u: User)
    requires Distinct(users, Username) && u in users
    ensures CredentialMatches(users, Forms.Credentials(u.username, u.email)) == [u]
  {
    var c := Forms.Credentials(u.username, u.email);
    var m := CredentialMatches(users, c);
    var i :| 0 <= i < |users| && users[i] == u;
    forall x | x in m ensures x == u {
      var j :| 0 <= j < |users| && users[j] == x;
      DistinctKeyDeterminesIndex(users, Username, i, j);
    }
    DistinctCountsAtMostOne(users, u);
    assert multiset(m) == multiset{u};
    assert |m| == |multiset(m)| == 1;
    assert m[0] in m;
  }

  /** When some user has exactly the submitted pair, the session now names that user and nothing else changes. */
  lemma ResetRequestRemembersUser(s: Store, session: Session, username: Option<string>, email: Option<string>, u: User)
    requires Valid(s) && u in s.users
    requires Forms.ValidatePasswordRequest(username, email) == Forms.Valid(Forms.Credentials(u.username, u.email))
    ensures PasswordRequestPost(s, session, username, email) ==
              Reply(Redirect(PasswordReset), session[ResetKey := u.id])
  {
    CredentialMatchIsThatUser(s.users, u);
  }

  /** When no user has the submitted pair, an error is shown and the session does not change. */
  lemma ResetRequestWithoutMatch(s: Store, session: Session, username: Option<string>, email: Option<string>)
    requires Forms.ValidatePasswordRequest(username, email).Valid?
    requires var c := Forms.ValidatePasswordRequest(username, email).data;
             forall u :: u in s.users ==> u.username != c.username || u.email != c.email
    ensures PasswordRequestPost(s, session, username, email) ==
              Reply(RenderWithError(PasswordRequestPage), session)
  {
    var c := Forms.ValidatePasswordRequest(username, email).data;
    var m := CredentialMatches(s.users, c);
    assert multiset(m) == multiset{};
  }

  lemma RememberMatchOnlySetsKey(users: seq<User>, c: Forms.Credentials, session: Session)
    ensures RememberMatch(users, c, session).session - {ResetKey} == session - {ResetKey}
  {
    var m := CredentialMatches(users, c);
    if |m| == 1 {
      var id := m[0].id;
      assert session[ResetKey := id] - {ResetKey} == session - {ResetKey};
    }
  }

  /** `CustomPasswordResetView.get`. */
  function PasswordResetGet(session: Session): (r: Response)
    ensures r.Redirect? <==> !HasResetTarget(session)
  {
    if !HasResetTarget(session) then Redirect(PasswordRequest) else Render(PasswordResetPage)
  }

  /** Set the password of the user with key `id`. */
  function SetPassword(users: seq<User>, id: Pk, password: string): (r: seq<User>)
    ensures |r| == |users|
    ensures forall i :: 0 <= i < |users| && users[i].id == id ==> r[i] == users[i].(password := password)
    ensures forall i :: 0 <= i < |users| && users[i].id != id ==> r[i] == users[i]
  {
    seq(|users|, i requires 0 <= i < |users| => if users[i].id == id then users[i].(password := password) else users[i])
  }

  /**
   * Step two (`CustomPasswordResetView.post`): without a reset target, back to
   * step one; with matching passwords, the target's password is set and the
   * key removed; a target that no longer exists is a 404.
   */
  function PasswordResetPost(s: Store, session: Session, newPassword: Option<string>, confirmPassword: Option<string>): (r: Step)
    ensures r.store == s.(users := r.store.users) && |r.store.users| == |s.users|
    ensures || r.store.users == s.users
            || (HasResetTarget(session) && r.store.users == SetPassword(s.users, session[ResetKey], Forms.Stripped(newPassword)))
    ensures r.response == Redirect(Login) <==>
              && HasResetTarget(session)
              && Forms.ValidatePasswordReset(newPassword, confirmPassword).Valid?
              && exists u :: u in s.users && u.id == session[ResetKey]
    ensures r.response == Redirect(Login) ==> r.session == session - {ResetKey}
    ensures r.response != Redirect(Login) ==> r.store == s && r.session == session
  {
    if !HasResetTarget(session) then Step(Redirect(PasswordRequest), s, session)
    else
      match Forms.ValidatePasswordReset(newPassword, confirmPassword)
      case Rejected(_) => Step(Render(PasswordResetPage), s, session)
      case Valid(password) => ResetTarget(s, session, session[ResetKey], password)
  }

  /** `User.objects.get(id=user_id)` and, when it exists, the new password and the cleared key. */
  function ResetTarget(s: Store, session: Session, id: nat, password: string): (r: Step)
    ensures r.response == Redirect(Login) <==> exists u :: u in s.users && u.id == id
    ensures r.response == Redirect(Login) ==>
              r == Step(Redirect(Login), s.(users := SetPassword(s.users, id, password)), session - {ResetKey})
    ensures r.response != Redirect(Login) ==> r == Step(NotFound, s, session)
  {
    match FindUser(s.users, id)
    case None => Step(NotFound, s, session)
    case Some(_) => Step(Redirect(Login), s.(users := SetPassword(s.users, id, password)), session - {ResetKey})
  }

  /** Without a reset target, both steps of the confirm page send the browser back and change nothing. */
  lemma ResetNeedsTarget(s: Store, session: Session, newPassword: Option<string>, confirmPassword: Option<string>)
    requires !HasResetTarget(session)
    ensures PasswordResetGet(session) == Redirect(PasswordRequest)
    ensures PasswordResetPost(s, session, newPassword, confirmPassword) == Step(Redirect(PasswordRequest), s, session)
  {
  }

  /** A refused form (missing or different passwords) changes neither the password nor the key. */
  lemma ResetRefusedFormChangesNothing(s: Store, session: Session, newPassword: Option<string>, confirmPassword: Option<string>)
    requires HasResetTarget(session)
    requires Forms.ValidatePasswordReset(newPassword, confirmPassword).Rejected?
    ensures PasswordResetPost(s, session, newPassword, confirmPassword) == Step(Render(PasswordResetPage), s, session)
  {
  }

  /**
   * An accepted form sets the target's password to the cleaned new password,
   * leaves every other user and table as it was, and removes the key only.
   */
  lemma ResetSetsPassword(s: Store, session: Session, newPassword: Option<string>, confirmPassword: Option<string>)
    requires HasResetTarget(session)
    requires Forms.ValidatePasswordReset(newPassword, confirmPassword).Valid?
    requires FindUser(s.users, session[ResetKey]).Some?
    ensures var r := PasswordResetPost(s, session, newPassword, confirmPassword);
            var id := session[ResetKey];
            && r.response == Redirect(Login)
            && r.store == s.(users := r.store.users)
            && |r.store.users| == |s.users|
            && (forall i :: 0 <= i < |s.users| && s.users[i].id == id ==>
                  r.store.users[i] == s.users[i].(password := Forms.Stripped(newPassword)))
            && (forall i :: 0 <= i < |s.users| && s.users[i].id != id ==> r.store.users[i] == s.users[i])
            && ResetKey !in r.session
            && r.session == session - {ResetKey}
  {
    var password := Forms.ValidatePasswordReset(newPassword, confirmPassword).data;
    assert password == Forms.Stripped(newPassword);
    var id := session[ResetKey];
    var r := PasswordResetPost(s, session, newPassword, confirmPassword);
    assert r == Step(Redirect(Login), s.(users := SetPassword(s.users, id, password)), session - {ResetKey});
  }

  /** After a successful reset the key is gone: a replayed form goes back to step one. */
  lemma ResetIsOneShot(s: Store, session: Session, newPassword: Option<string>, confirmPassword: Option<string>)
    requires HasResetTarget(session)
    requires Forms.ValidatePasswordReset(newPassword, confirmPassword).Valid?
    requires FindUser(s.users, session[ResetKey]).Some?
    ensures var r := PasswordResetPost(s, session, newPassword, confirmPassword);
            PasswordResetPost(r.store, r.session, newPassword, confirmPassword) == Step(Redirect(PasswordRequest), r.store, r.session)
  {
  }

  /** The two steps together: naming a user by username and email, then confirming a password, sets that user's password. */
  lemma TwoStepResetSetsPassword(
    s: Store, session: Session, username: Option<string>, email: Option<string>,
    newPassword: Option<string>, confirmPassword: Option<string>, u: User)
    requires Valid(s) && u in s.users
    requires Forms.ValidatePasswordRequest(username, email) == Forms.Valid(Forms.Credentials(u.username, u.email))
    requires Forms.ValidatePasswordReset(newPassword, confirmPassword).Valid?
    ensures var step1 := PasswordRequestPost(s, session, username, email);
            var step2 := PasswordResetPost(s, step1.session, newPassword, confirmPassword);
            && step2.response == Redirect(Login)
            && exists i :: 0 <= i < |step2.store.users| && step2.store.users[i] == u.(password := Forms.Stripped(newPassword))
  {
    ResetRequestRemembersUser(s, session, username, email, u);
    var session1 := session[ResetKey := u.id];
    assert HasResetTarget(session1);
    ResetSetsPassword(s, session1, newPassword, confirmPassword);
    var i :| 0 <= i < |s.users| && s.users[i] == u;
    var r := PasswordResetPost(s, session1, newPassword, confirmPassword);
    assert r.store.users[i] == u.(password := Forms.Stripped(newPassword));
  }

  /** Setting a password keeps every integrity constraint. */
  lemma ResetPreservesValid(s: Store, session: Session, newPassword: Option<string>, confirmPassword: Option<string>)
    requires Valid(s)
    ensures Valid(PasswordResetPost(s, session, newPassword, confirmPassword).store)
  {
    var r := PasswordResetPost(s, session, newPassword, confirmPassword);
    if r.store.users != s.users {
      SetPasswordPreservesValid(s, session[ResetKey], Forms.Stripped(newPassword));
    }
  }

  lemma SetPasswordPreservesValid(s: Store, id: Pk, password: string)
    requires Valid(s)
    ensures Valid(s.(users := SetPassword(s.users, id, password)))
  {
    var r := s.(users := SetPassword(s.users, id, password));
    assert forall i :: 0 <= i < |s.users| ==> r.users[i].id == s.users[i].id && r.users[i].username == s.users[i].username;
    assert UserIds(r) == UserIds(s) by {
      forall k ensures k in UserIds(r) <==> k in UserIds(s) {
        if k in UserIds(s) {
          var u :| u in s.users && u.id == k;
          var i :| 0 <= i < |s.users| && s.users[i] == u;
          assert r.users[i] in r.users;
        }
      }
    }
  }

  // ---------------------------------------------------------------------------
  // register_view
  // ---------------------------------------------------------------------------

  /** The outcome of a registration request, with the user the session is now signed in as. */
  datatype Registration = Registration(response: Response, store: Store, signedIn: Option<Pk>)

  /**
   * `register_view`: an accepted form creates a non-staff user with a fresh key,
   * holding the normalised username and email, and signs them in, which also
   * records today's login activity.
   */
  function RegisterView(s: Store, verb: Method, input: Forms.RegisterInput, today: Date): (r: Registration)
    ensures r.signedIn.Some? <==>
              && verb == Post
              && Forms.TextField(input.username, Some(150)).Cleaned?
              && Forms.TextField(input.email, None).Cleaned?
              && input.passwordChecksPass
              && Forms.FreshAccount(s.users, Forms.Stripped(input.username), Forms.Stripped(input.email))
    ensures r.signedIn.None? ==> r.response == Render(RegisterPage) && r.store == s
    ensures r.signedIn.Some? ==>
              && r.response == Redirect(Home)
              && User(r.signedIn.value,
                      Accounts.NormalizeUsername(Forms.Stripped(input.username)),
                      Accounts.NormalizeEmail(Forms.Stripped(input.email)),
                      input.password1, false)
                   in r.store.users
  {
    match verb
    case Get => Registration(Render(RegisterPage), s, None)
    case Post =>
      Forms.RegisterAcceptedExactly(s.users, input);
      match Forms.ValidateRegister(s.users, input)
      case Rejected(_) => Registration(Render(RegisterPage), s, None)
      case Valid(account) =>
        var id := NextUserId(s);
        var u := User(id, account.username, account.email, account.password, false);
        var created := s.(users := s.users + [u], issued := s.issued.(users := id));
        var signedIn := Signals.LogLoginActivity(created, id, today);
        assert u in signedIn.users by {
          assert signedIn.users == s.users + [u];
        }
        Registration(Redirect(Home), signedIn, Some(id))
  }

  /**
   * An accepted registration adds exactly one user, with a key no user had,
   * the username and email as the form normalised them, and the signed-in
   * session; it records
   * today's login for that user and changes no other table.
   */
  lemma RegisterCreatesAccount(s: Store, input: Forms.RegisterInput, today: Date)
    requires Forms.ValidateRegister(s.users, input).Valid?
    ensures var r := RegisterView(s, Post, input, today);
            var account := Forms.ValidateRegister(s.users, input).data;
            && r.response == Redirect(Home)
            && r.signedIn.Some?
            && (forall u :: u in s.users ==> u.id != r.signedIn.value)
            && r.signedIn.value > s.issued.users
            && r.store.users == s.users + [User(r.signedIn.value, account.username, account.email, input.password1, false)]
            && LoginActivity(r.signedIn.value, today) in r.store.logins
            && r.store == s.(users := r.store.users, logins := r.store.logins, issued := s.issued.(users := r.signedIn.value))
  {
  }

  /**
   * The account is stored with its normalised email, while step one of the
   * reset looks the pair up exactly as typed: after registering with an email
   * whose domain has a capital ("ann@Example.org"), the same username and
   * email do not find the account.
   */
  lemma RegisteredEmailAsTypedNotFound(s: Store, input: Forms.RegisterInput, today: Date, session: Session)
    requires Forms.ValidateRegister(s.users, input).Valid?
    requires Accounts.NormalizeEmail(Forms.Stripped(input.email)) != Forms.Stripped(input.email)
    ensures PasswordRequestPost(RegisterView(s, Post, input, today).store, session, input.username, input.email)
            == Reply(RenderWithError(PasswordRequestPage), session)
  {
    var c := Forms.Credentials(Forms.Stripped(input.username), Forms.Stripped(input.email));
    RegisteredPairHasNoMatch(s, input, today);
    assert Forms.ValidatePasswordRequest(input.username, input.email) == Forms.Valid(c);
  }

  lemma RegisteredPairHasNoMatch(s: Store, input: Forms.RegisterInput, today: Date)
    requires Forms.ValidateRegister(s.users, input).Valid?
    requires Accounts.NormalizeEmail(Forms.Stripped(input.email)) != Forms.Stripped(input.email)
    ensures CredentialMatches(
              RegisterView(s, Post, input, today).store.users,
              Forms.Credentials(Forms.Stripped(input.username), Forms.Stripped(input.email))) == []
  {
    var account := Forms.ValidateRegister(s.users, input).data;
    var later := AcceptedRegistration(s, input, today);
    var c := Forms.Credentials(Forms.Stripped(input.username), Forms.Stripped(input.email));
    assert Forms.FreshAccount(s.users, c.username, c.email);
    NoMatchAfterAppend(s.users, User(NextUserId(s), account.username, account.email, account.password, false), c);
  }

  /** Appending a user with another email to users none of whom has the username leaves no match. */
  lemma NoMatchAfterAppend(users: seq<User>, u: User, c: Forms.Credentials)
    requires forall w :: w in users ==> w.username != c.username
    requires u.email != c.email
    ensures CredentialMatches(users + [u], c) == []
  {
  }

  /**
   * The store after an accepted registration: the new user appended under the
   * next key, then the login signal for today.
   */
  lemma AcceptedRegistration(s: Store, input: Forms.RegisterInput, today: Date) returns (later: Store)
    requires Forms.ValidateRegister(s.users, input).Valid?
    ensures var account := Forms.ValidateRegister(s.users, input).data;
            var u := User(NextUserId(s), account.username, account.email, account.password, false);
            && later == RegisterView(s, Post, input, today).store
            && later == Signals.LogLoginActivity(
                          s.(users := s.users + [u], issued := s.issued.(users := NextUserId(s))), NextUserId(s), today)
            && later.users == s.users + [u]
  {
    later := RegisterView(s, Post, input, today).store;
  }

  /** A refused registration (taken username or email, missing email, ...) creates nothing and signs nobody in. */
  lemma RegisterRefusedChangesNothing(s: Store, input: Forms.RegisterInput, today: Date)
    requires Forms.ValidateRegister(s.users, input).Rejected?
    ensures RegisterView(s, Post, input, today) == Registration(Render(RegisterPage), s, None)
  {
  }

  /** Registration keeps every integrity constraint: the key is fresh and the username unused. */
  lemma RegisterPreservesValid(s: Store, verb: Method, input: Forms.RegisterInput, today: Date)
    requires Valid(s)
    ensures Valid(RegisterView(s, verb, input, today).store)
  {
    match verb
    case Get =>
    case Post =>
      var v := Forms.ValidateRegister(s.users, input);
      if v.Valid? {
        var id := NextUserId(s);
        var u := User(id, v.data.username, v.data.email, v.data.password, false);
        var created := s.(users := s.users + [u], issued := s.issued.(users := id));
        assert forall w :: w in s.users ==> w.id != u.id && w.username != u.username;
        AppendUserPreservesValid(s, u);
        Signals.LoginPreservesValid(created, id, today);
        var later := AcceptedRegistration(s, input, today);
      }
  }

  lemma AppendUserPreservesValid(s: Store, u: User)
    requires Valid(s)
    requires forall v :: v in s.users ==> v.id != u.id && v.username != u.username
    requires u.id > s.issued.users
    ensures Valid(s.(users := s.users + [u], issued := s.issued.(users := u.id)))
    ensures u.id in UserIds(s.(users := s.users + [u], issued := s.issued.(users := u.id)))
  {
    var r := s.(users := s.users + [u], issued := s.issued.(users := u.id));
    forall i | 0 <= i < |s.users| ensures UserId(s.users[i]) != UserId(u) && Username(s.users[i]) != Username(u) {
      assert s.users[i] in s.users;
    }
    AppendKeepsDistinct(s.users, u, UserId);
    AppendKeepsDistinct(s.users, u, Username);
    assert UserIds(r) == UserIds(s) + {u.id};
  }

  /** A reset target that names no stored user is a 404 that changes nothing. */
  lemma ResetForMissingUser(s: Store, session: Session, newPassword: Option<string>, confirmPassword: Option<string>)
    requires HasResetTarget(session)
    requires Forms.ValidatePasswordReset(newPassword, confirmPassword).Valid?
    requires forall v :: v in s.users ==> v.id != session[ResetKey]
    ensures PasswordResetPost(s, session, newPassword, confirmPassword) == Step(NotFound, s, session)
  {
  }

  /** Registration only adds a user whose key is above every key handed out before. */
  lemma RegisterAddsOnlyNewKeys(s: Store, verb: Method, input: Forms.RegisterInput, today: Date)
    ensures forall v :: v in RegisterView(s, verb, input, today).store.users ==> v in s.users || v.id > s.issued.users
  {
    if verb == Post && Forms.ValidateRegister(s.users, input).Valid? {
      RegisterCreatesAccount(s, input, today);
    }
  }

  /**
   * A reset key left in a session for a user who is then deleted never
   * reaches a newer account: keys are not handed out again, so after another
   * registration the confirm step still answers 404.
   */
  lemma StaleResetTargetNotFound(
    s: Store, u: User, session: Session, input: Forms.RegisterInput, today: Date,
    newPassword: Option<string>, confirmPassword: Option<string>)
    requires Valid(s) && u in s.users
    requires ResetKey in session && session[ResetKey] == u.id
    requires Forms.ValidatePasswordReset(newPassword, confirmPassword).Valid?
    ensures var later := RegisterView(Integrity.DeleteUser(s, u.id), Post, input, today).store;
            PasswordResetPost(later, session, newPassword, confirmPassword) == Step(NotFound, later, session)
  {
    var gone := Integrity.DeleteUser(s, u.id);
    Integrity.DeleteUserIds(s, u.id);
    assert gone.issued == s.issued;
    assert u.id <= s.issued.users;
    RegisterAddsOnlyNewKeys(gone, Post, input, today);
    var later := RegisterView(gone, Post, input, today).store;
    forall v | v in later.users ensures v.id != u.id {
      if v in gone.users {
        assert v.id in UserIds(gone);
      }
    }
    ResetForMissingUser(later, session, newPassword, confirmPassword);
  }
}
