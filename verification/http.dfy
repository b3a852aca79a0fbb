/**
 * What a handler answers, as a tag rather than HTML: which template is
 * rendered (possibly with an error message flashed), where a redirect goes, or
 * the framework's 404 and 500 answers. Also the identity a request carries.
 */
module Http {
  import opened Options
  import opened Seqs
  import opened Models

  datatype Route =
    | Home | Login | PasswordRequest | PasswordReset | UserUploads | TeamList
    | SiteSettingsEdit | EventList | AdminLogin

  datatype Template =
    | RegisterPage | PasswordRequestPage | PasswordResetPage | UploadPage | FeedbackPage
    | CreateEventPage | TeamMemberConfirmDelete | SiteSettingsPage | EventDetailPage

  datatype Method = Get | Post

  datatype Response =
    | Render(template: Template)
    | RenderWithError(template: Template)
    | Redirect(to: Route)
    | RedirectWithError(to: Route)
    | NotFound
    | ServerError

  /**
   * `request.user`: the user whose key the session carries, or the anonymous
   * user when the session carries none or the user no longer exists.
   */
  function CurrentUser(s: Store, auth: Option<nat>): (r: Option<User>)
    ensures r.Some? ==> auth == Some(r.value.id) && r.value in s.users
    ensures r.None? ==> auth.None? || forall u :: u in s.users ==> u.id != auth.value
  {
    match auth
    case None => None
    case Some(id) => FindUser(s.users, id)
  }

  /**
   * `request.user.is_staff`: staff rights come only from a stored staff user
   * carrying the session's key; the anonymous user is never staff.
   */
  function IsStaff(s: Store, auth: Option<nat>): (b: bool)
    ensures b ==> auth.Some? && exists u :: u in s.users && u.id == auth.value && u.isStaff
    ensures auth.None? ==> !b
  {
    var u := CurrentUser(s, auth);
    u.Some? && u.value.isStaff
  }

  /** With unique user keys, a request is staff exactly when the user with its key is staff. */
  lemma IsStaffExactly(s: Store, auth: Option<nat>)
    requires Distinct(s.users, UserId)
    requires auth.Some?
    ensures IsStaff(s, auth) <==> exists u :: u in s.users && u.id == auth.value && u.isStaff
  {
    if u :| u in s.users && u.id == auth.value && u.isStaff {
      var v := CurrentUser(s, auth).value;
      var i :| 0 <= i < |s.users| && s.users[i] == u;
      var j :| 0 <= j < |s.users| && s.users[j] == v;
      DistinctKeyDeterminesIndex(s.users, UserId, i, j);
    }
  }
}
