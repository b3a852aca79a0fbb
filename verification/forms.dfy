/**
 * Input validation of ecoapp/forms.py. Each raw field is `None` when the
 * request does not carry it. Text fields are cleaned as Django's
 * `forms.CharField` does: the value is stripped, a blank value is rejected
 * when the field is required, and only a non-blank value is checked against
 * `max_length` and for NUL characters.
 */
module Forms {
  import opened Options
  import Text
  import opened Seqs
  import opened Models
  import Accounts

  datatype FieldError =
    | Required
    | TooLong(limit: nat)
    | NullCharacter
    | InvalidChoice
    | EmailInUse       // "This email is already in use."
    | UsernameTaken    // "This username is already taken."
    | UsernameExists   // "A user with that username already exists." (the model's unique check)
    | PasswordRejected // the framework's own password1/password2 checks failed

  datatype FormError =
    | FieldErr(field: string, error: FieldError)
    | PasswordsDoNotMatch // "Passwords do not match."
    | NameNotUnique       // the model's `unique=True` check on Category.name

  datatype Field = Cleaned(value: string) | Invalid(errors: seq<FieldError>)

  datatype Validated<T> = Valid(data: T) | Rejected(errors: seq<FormError>)

  /** A raw text input stripped as `CharField.to_python` does; absent reads as empty. */
  function Stripped(raw: Option<string>): string {
    Text.Strip(raw.GetOr(""))
  }

  /** `forms.CharField(required=required, max_length=maxLength).clean(raw)`. */
  function CleanCharField(raw: Option<string>, required: bool, maxLength: Option<nat>): (f: Field)
    ensures f.Cleaned? ==> f.value == Stripped(raw)
    ensures f.Cleaned? <==>
              && (required ==> Stripped(raw) != "")
              && (Stripped(raw) != "" ==> '\0' !in Stripped(raw))
              && (Stripped(raw) != "" && maxLength.Some? ==> |Stripped(raw)| <= maxLength.value)
    ensures f.Invalid? ==> |f.errors| > 0
  {
    var v := Stripped(raw);
    if v == "" then
      if required then Invalid([Required]) else Cleaned("")
    else
      var errors :=
        (if maxLength.Some? && |v| > maxLength.value then [TooLong(maxLength.value)] else [])
        + (if '\0' in v then [NullCharacter] else []);
      if errors == [] then Cleaned(v) else Invalid(errors)
  }

  /** Field errors labelled with the name of their field. */
  function Label(name: string, es: seq<FieldError>): (r: seq<FormError>)
    ensures |r| == |es|
    ensures forall i :: 0 <= i < |es| ==> r[i] == FieldErr(name, es[i])
    decreases |es|
  {
    if |es| == 0 then [] else [FieldErr(name, es[0])] + Label(name, es[1..])
  }

  /** The field errors of `f`, labelled with the field name. */
  function ErrorsOf(name: string, f: Field): (r: seq<FormError>)
    ensures f.Cleaned? ==> r == []
    ensures f.Invalid? ==> r == Label(name, f.errors)
    ensures forall e :: e in r ==> e.FieldErr?
  {
    match f
    case Cleaned(_) => []
    case Invalid(es) => Label(name, es)
  }

  /** A required text field with an optional length bound. */
  function TextField(raw: Option<string>, maxLength: Option<nat>): Field {
    CleanCharField(raw, true, maxLength)
  }

  /** A `ModelChoiceField` over the categories: the submitted key must name an existing row. */
  function ChooseCategory(categories: seq<Category>, raw: Option<nat>): (r: Option<FieldError>)
    ensures r.None? <==> raw.Some? && exists c :: c in categories && c.id == raw.value
  {
    match raw
    case None => Some(Required)
    case Some(k) => if exists c :: c in categories && c.id == k then None else Some(InvalidChoice)
  }

  function ChoiceErrors(name: string, e: Option<FieldError>): seq<FormError> {
    match e
    case None => []
    case Some(err) => [FieldErr(name, err)]
  }

  // ---------------------------------------------------------------------------
  // RegisterForm (UserCreationForm with a required, unused email)
  // ---------------------------------------------------------------------------

  datatype RegisterInput = RegisterInput(
    username: Option<string>, email: Option<string>, password1: string,
    passwordChecksPass: bool)

  datatype NewAccount = NewAccount(username: string, email: string, password: string)

  /**
   * `clean_username`: a cleaned username must not belong to any user yet. When
   * it passes, `_post_clean` normalises the name (`User.clean()`) and
   * `validate_unique` refuses it if a user already holds the normalised name.
   */
  function CheckUsername(users: seq<User>, f: Field): (r: seq<FieldError>)
    ensures f.Invalid? ==> r == f.errors
    ensures f.Cleaned? ==>
              (r == [] <==> forall u :: u in users ==>
                              u.username != f.value && u.username != Accounts.NormalizeUsername(f.value))
  {
    match f
    case Invalid(es) => es
    case Cleaned(v) =>
      if exists u :: u in users && u.username == v then [UsernameTaken]
      else if exists u :: u in users && u.username == Accounts.NormalizeUsername(v) then [UsernameExists]
      else []
  }

  /** `clean_email`: a cleaned email must not belong to any user yet. */
  function CheckEmail(users: seq<User>, f: Field): (r: seq<FieldError>)
    ensures f.Invalid? ==> r == f.errors
    ensures f.Cleaned? ==> (r == [] <==> forall u :: u in users ==> u.email != f.value)
  {
    match f
    case Invalid(es) => es
    case Cleaned(v) => if exists u :: u in users && u.email == v then [EmailInUse] else []
  }

  /**
   * Every error `RegisterForm` reports: field errors first, then the framework's password verdict.
   * There is none exactly when both fields clean to values no user holds and the password checks pass.
   */
  function RegisterErrors(users: seq<User>, input: RegisterInput): (r: seq<FormError>)
    ensures r == [] <==>
              && TextField(input.username, Some(150)).Cleaned?
              && TextField(input.email, None).Cleaned?
              && input.passwordChecksPass
              && FreshAccount(users, Stripped(input.username), Stripped(input.email))
  {
    var a := Label("username", CheckUsername(users, TextField(input.username, Some(150))));
    var b := Label("email", CheckEmail(users, TextField(input.email, None)));
    var c := if input.passwordChecksPass then [] else [FieldErr("password2", PasswordRejected)];
    CheckedFieldsClean(users, input);
    a + b + c
  }

  /** The username and email checks pass exactly when each field cleans to a value no user holds. */
  lemma CheckedFieldsClean(users: seq<User>, input: RegisterInput)
    ensures CheckUsername(users, TextField(input.username, Some(150))) == [] <==>
              TextField(input.username, Some(150)).Cleaned?
              && forall u :: u in users ==>
                   u.username != Stripped(input.username)
                   && u.username != Accounts.NormalizeUsername(Stripped(input.username))
    ensures CheckEmail(users, TextField(input.email, None)) == [] <==>
              TextField(input.email, None).Cleaned?
              && forall u :: u in users ==> u.email != Stripped(input.email)
  {
    var username := TextField(input.username, Some(150));
    var email := TextField(input.email, None);
    assert username.Invalid? ==> |username.errors| > 0;
    assert email.Invalid? ==> |email.errors| > 0;
  }

  /**
   * No user holds the username as typed or in its normalised form, and no
   * user holds the email as typed.
   */
  predicate FreshAccount(users: seq<User>, username: string, email: string) {
    forall u :: u in users ==>
      u.username != username && u.username != Accounts.NormalizeUsername(username) && u.email != email
  }

  /**
   * `RegisterForm(data).is_valid()` against the current users. The account it
   * yields holds what `form.save()` stores: the NFKC username and the email
   * with its domain lower-cased, as `User.clean()` leaves them.
   */
  function ValidateRegister(users: seq<User>, input: RegisterInput): (r: Validated<NewAccount>)
    ensures r.Valid? ==>
              && Stripped(input.username) != "" && Stripped(input.email) != ""
              && r.data.username == Accounts.NormalizeUsername(Stripped(input.username)) != ""
              && r.data.email == Accounts.NormalizeEmail(Stripped(input.email)) != ""
              && r.data.password == input.password1
              && input.passwordChecksPass
              && forall u :: u in users ==> u.username != r.data.username && u.email != Stripped(input.email)
    ensures r.Valid? ==> FreshAccount(users, Stripped(input.username), Stripped(input.email))
    ensures r.Valid? <==> RegisterErrors(users, input) == []
    ensures r.Rejected? ==> r.errors == RegisterErrors(users, input)
  {
    var errors := RegisterErrors(users, input);
    if errors == [] then
      NoRegisterErrors(users, input);
      Valid(NewAccount(
        Accounts.NormalizeUsername(Stripped(input.username)),
        Accounts.NormalizeEmail(Stripped(input.email)),
        input.password1))
    else Rejected(errors)
  }

  /** No error at all means both fields cleaned to values nobody holds yet. */
  lemma NoRegisterErrors(users: seq<User>, input: RegisterInput)
    requires RegisterErrors(users, input) == []
    ensures Stripped(input.username) != "" && Stripped(input.email) != "" && input.passwordChecksPass
    ensures FreshAccount(users, Stripped(input.username), Stripped(input.email))
  {
    var uf := TextField(input.username, Some(150));
    var ef := TextField(input.email, None);
    var ue := CheckUsername(users, uf);
    var ee := CheckEmail(users, ef);
    assert |Label("username", ue)| == 0 && |Label("email", ee)| == 0;
    assert ue == [] && ee == [];
  }

  /**
   * The accepting direction: a username of at most 150 characters and an email,
   * both non-blank without NUL, where no user holds the username (as typed or
   * normalised) or the email, with passing password checks, register the
   * normalised username and email.
   */
  lemma RegisterAcceptsFresh(users: seq<User>, input: RegisterInput)
    requires TextField(input.username, Some(150)).Cleaned? && TextField(input.email, None).Cleaned?
    requires input.passwordChecksPass
    requires forall u :: u in users ==>
               && u.username != Stripped(input.username)
               && u.username != Accounts.NormalizeUsername(Stripped(input.username))
               && u.email != Stripped(input.email)
    ensures ValidateRegister(users, input)
            == Valid(NewAccount(
                 Accounts.NormalizeUsername(Stripped(input.username)),
                 Accounts.NormalizeEmail(Stripped(input.email)),
                 input.password1))
  {
    assert FreshAccount(users, Stripped(input.username), Stripped(input.email));
  }

  /** The registration form is accepted exactly under the conditions of `RegisterErrors`. */
  lemma RegisterAcceptedExactly(users: seq<User>, input: RegisterInput)
    ensures ValidateRegister(users, input).Valid? <==>
              && TextField(input.username, Some(150)).Cleaned?
              && TextField(input.email, None).Cleaned?
              && input.passwordChecksPass
              && FreshAccount(users, Stripped(input.username), Stripped(input.email))
  {
    var errors := RegisterErrors(users, input);
    assert ValidateRegister(users, input).Valid? <==> errors == [];
  }

  /** An email that some user already has is refused. */
  lemma RegisterRejectsTakenEmail(users: seq<User>, input: RegisterInput, u: User)
    requires u in users && u.email == Stripped(input.email)
    ensures ValidateRegister(users, input).Rejected?
    ensures TextField(input.email, None).Cleaned? ==>
              FieldErr("email", EmailInUse) in ValidateRegister(users, input).errors
  {
    TakenEmailReported(users, input, u);
    RegisterRejectsWithErrors(users, input);
  }

  lemma TakenEmailReported(users: seq<User>, input: RegisterInput, u: User)
    requires u in users && u.email == Stripped(input.email)
    ensures RegisterErrors(users, input) != []
    ensures TextField(input.email, None).Cleaned? ==> FieldErr("email", EmailInUse) in RegisterErrors(users, input)
  {
    var ue := CheckUsername(users, TextField(input.username, Some(150)));
    var ef := TextField(input.email, None);
    var ee := CheckEmail(users, ef);
    if ef.Cleaned? {
      TakenEmailFlagged(users, ef.value, u);
    }
    var tail := if input.passwordChecksPass then [] else [FieldErr("password2", PasswordRejected)];
    LabelledAt(ue, ee, tail);
    assert RegisterErrors(users, input) == Label("username", ue) + Label("email", ee) + tail;
  }

  lemma RegisterRejectsWithErrors(users: seq<User>, input: RegisterInput)
    requires RegisterErrors(users, input) != []
    ensures ValidateRegister(users, input) == Rejected(RegisterErrors(users, input))
  {
  }

  lemma TakenEmailFlagged(users: seq<User>, v: string, u: User)
    requires u in users && u.email == v
    ensures CheckEmail(users, Cleaned(v)) == [EmailInUse]
  {
  }

  lemma LabelledAt(a: seq<FieldError>, b: seq<FieldError>, c: seq<FormError>)
    requires |b| > 0
    ensures (Label("username", a) + Label("email", b) + c)[|a|] == FieldErr("email", b[0])
  {
  }

  /** A username that some user already has is refused. */
  lemma RegisterRejectsTakenUsername(users: seq<User>, input: RegisterInput, u: User)
    requires u in users && u.username == Stripped(input.username)
    ensures ValidateRegister(users, input).Rejected?
  {
  }

  /**
   * A username whose normalised form some user holds is refused, even when no
   * user holds it as typed: "ﬁona" is refused once "fiona" exists.
   */
  lemma RegisterRejectsNormalisedClash(users: seq<User>, input: RegisterInput, u: User)
    requires u in users && u.username == Accounts.NormalizeUsername(Stripped(input.username))
    ensures ValidateRegister(users, input).Rejected?
  {
  }

  /**
   * `clean_email` compares the email as typed, and the domain is lower-cased
   * only afterwards: an address differing from a stored one only in the case of
   * its domain passes, and the new account then holds the same stored email.
   */
  lemma RegisterCanRepeatStoredEmail(users: seq<User>, input: RegisterInput, u: User)
    requires TextField(input.username, Some(150)).Cleaned? && TextField(input.email, None).Cleaned?
    requires input.passwordChecksPass
    requires forall v :: v in users ==>
               && v.username != Stripped(input.username)
               && v.username != Accounts.NormalizeUsername(Stripped(input.username))
               && v.email != Stripped(input.email)
    requires u in users && u.email == Accounts.NormalizeEmail(Stripped(input.email))
    ensures ValidateRegister(users, input).Valid?
    ensures ValidateRegister(users, input).data.email == u.email
  {
    RegisterAcceptsFresh(users, input);
  }

  /** The email field is required: a missing or blank email is refused. */
  lemma RegisterRequiresEmail(users: seq<User>, input: RegisterInput)
    requires Text.AllSpace(input.email.GetOr(""))
    ensures ValidateRegister(users, input).Rejected?
    ensures FieldErr("email", Required) in ValidateRegister(users, input).errors
  {
    var ee := CheckEmail(users, TextField(input.email, None));
    assert ee == [Required];
    var ue := CheckUsername(users, TextField(input.username, Some(150)));
    var errors := ValidateRegister(users, input).errors;
    assert errors[|ue|] == FieldErr("email", Required);
  }

  // ---------------------------------------------------------------------------
  // CustomPasswordRequestForm and CustomPasswordResetForm
  // ---------------------------------------------------------------------------

  datatype Credentials = Credentials(username: string, email: string)

  /** `CustomPasswordRequestForm(data).is_valid()`: both fields are required. */
  function ValidatePasswordRequest(username: Option<string>, email: Option<string>): (r: Validated<Credentials>)
    ensures r.Valid? <==> TextField(username, None).Cleaned? && TextField(email, None).Cleaned?
    ensures r.Valid? ==> r.data == Credentials(Stripped(username), Stripped(email))
  {
    var uf := TextField(username, None);
    var ef := TextField(email, None);
    var errors := ErrorsOf("username", uf) + ErrorsOf("email", ef);
    if errors == [] then Valid(Credentials(uf.value, ef.value)) else Rejected(errors)
  }

  /**
   * `CustomPasswordResetForm(data).is_valid()`. Both fields are required; the
   * form-wide `clean` compares the two cleaned values whenever both are present.
   */
  function ValidatePasswordReset(newPassword: Option<string>, confirmPassword: Option<string>): (r: Validated<string>)
    ensures r.Valid? ==> r.data == Stripped(newPassword) == Stripped(confirmPassword) && r.data != ""
  {
    var f1 := TextField(newPassword, None);
    var f2 := TextField(confirmPassword, None);
    var mismatch := f1.Cleaned? && f2.Cleaned? && f1.value != "" && f2.value != "" && f1.value != f2.value;
    var errors := ErrorsOf("new_password", f1) + ErrorsOf("confirm_password", f2)
                  + (if mismatch then [PasswordsDoNotMatch] else []);
    if errors == [] then Valid(f1.value) else Rejected(errors)
  }

  /** Both password fields must be present and non-blank. */
  lemma PasswordResetRequiresBoth(newPassword: Option<string>, confirmPassword: Option<string>)
    requires Stripped(newPassword) == "" || Stripped(confirmPassword) == ""
    ensures ValidatePasswordReset(newPassword, confirmPassword).Rejected?
    ensures PasswordsDoNotMatch !in ValidatePasswordReset(newPassword, confirmPassword).errors
  {
    var f1 := TextField(newPassword, None);
    var f2 := TextField(confirmPassword, None);
    var e1 := ErrorsOf("new_password", f1);
    var e2 := ErrorsOf("confirm_password", f2);
    if Stripped(newPassword) == "" {
      assert f1 == Invalid([Required]);
      assert |e1| == 1;
    } else {
      assert f2 == Invalid([Required]);
      assert |e2| == 1;
    }
    PasswordFieldErrorsOnly(newPassword, confirmPassword);
  }

  /** The per-field errors of the reset form never include the form-wide mismatch error. */
  lemma PasswordFieldErrorsOnly(newPassword: Option<string>, confirmPassword: Option<string>)
    ensures PasswordsDoNotMatch !in
              ErrorsOf("new_password", TextField(newPassword, None))
              + ErrorsOf("confirm_password", TextField(confirmPassword, None))
  {
    var e1 := ErrorsOf("new_password", TextField(newPassword, None));
    var e2 := ErrorsOf("confirm_password", TextField(confirmPassword, None));
    assert forall e: FormError :: e in e1 + e2 ==> e.FieldErr?;
  }

  /** "Passwords do not match." is raised exactly when both cleaned values are present and differ. */
  lemma PasswordMismatchExactly(newPassword: Option<string>, confirmPassword: Option<string>)
    ensures var r := ValidatePasswordReset(newPassword, confirmPassword);
            (r.Rejected? && PasswordsDoNotMatch in r.errors) <==>
              && TextField(newPassword, None).Cleaned?
              && TextField(confirmPassword, None).Cleaned?
              && Stripped(newPassword) != Stripped(confirmPassword)
  {
    var f1 := TextField(newPassword, None);
    var f2 := TextField(confirmPassword, None);
    var e1 := ErrorsOf("new_password", f1);
    var e2 := ErrorsOf("confirm_password", f2);
    assert forall e: FormError :: e in e1 + e2 ==> e.FieldErr?;
  }

  /** Two equal, acceptable passwords pass the form. */
  lemma PasswordResetAcceptsMatch(newPassword: Option<string>, confirmPassword: Option<string>)
    requires TextField(newPassword, None).Cleaned? && TextField(confirmPassword, None).Cleaned?
    requires Stripped(newPassword) == Stripped(confirmPassword)
    ensures ValidatePasswordReset(newPassword, confirmPassword) == Valid(Stripped(newPassword))
  {
  }

  // ---------------------------------------------------------------------------
  // SearchForm
  // ---------------------------------------------------------------------------

  const QueryMaxLength: nat := 255

  /**
   * `SearchForm(request.GET or None).is_valid()` and its cleaned query. An empty
   * query string leaves the form unbound, and an unbound form is never valid.
   */
  function ValidateSearch(params: map<string, string>): (r: Option<string>)
    ensures r.Some? <==>
              && |params| > 0
              && "query" in params
              && Text.Strip(params["query"]) != ""
              && |Text.Strip(params["query"])| <= QueryMaxLength
              && '\0' !in Text.Strip(params["query"])
    ensures r.Some? ==> r.value == Text.Strip(params["query"])
  {
    if |params| == 0 then None
    else
      var raw := if "query" in params then Some(params["query"]) else None;
      match TextField(raw, Some(QueryMaxLength))
      case Cleaned(q) => Some(q)
      case Invalid(_) => None
  }

  /** A valid query is already stripped and non-empty, so `query.strip()` is always truthy for it. */
  lemma ValidQueryHasVisibleText(params: map<string, string>)
    requires ValidateSearch(params).Some?
    ensures Text.Strip(ValidateSearch(params).value) != ""
    ensures |ValidateSearch(params).value| <= QueryMaxLength
  {
    Text.StripIdempotent(params["query"]);
  }

  // ---------------------------------------------------------------------------
  // Model forms used by the create/edit handlers
  // ---------------------------------------------------------------------------

  /** The default `max_length` of a `FileField` or `ImageField`, applied to the file name. */
  const FileNameMaxLength: nat := 100

  /**
   * `forms.FileField.to_python` on the submitted file's name: a name is needed,
   * and it must fit the model field's `max_length`. The multipart parser drops
   * a part with an empty file name, so the form sees such a file as missing.
   */
  function FileErrors(name: string): (r: seq<FieldError>)
    ensures r == [] <==> name != "" && |name| <= FileNameMaxLength
  {
    if name == "" then [Required]
    else if |name| > FileNameMaxLength then [TooLong(FileNameMaxLength)]
    else []
  }

  /** The errors of a required file input. */
  function RequiredFileErrors(name: string, file: Option<string>): (r: seq<FormError>)
    ensures r == [] <==> file.Some? && file.value != "" && |file.value| <= FileNameMaxLength
  {
    match file
    case None => [FieldErr(name, Required)]
    case Some(n) => Label(name, FileErrors(n))
  }

  /** The errors of an optional file input (`blank=True`): no file is fine. */
  function OptionalFileErrors(name: string, file: Option<string>): (r: seq<FormError>)
    ensures r == [] <==> file.None? || (file.value != "" && |file.value| <= FileNameMaxLength)
  {
    match file
    case None => []
    case Some(n) => Label(name, FileErrors(n))
  }

  datatype UploadInput = UploadInput(
    title: Option<string>, description: Option<string>, category: Option<nat>, file: Option<string>)

  datatype UploadData = UploadData(title: string, description: string, category: Pk, file: string)

  /** `UploadForm(data, files).is_valid()`. */
  function ValidateUpload(categories: seq<Category>, input: UploadInput): (r: Validated<UploadData>)
    ensures r.Valid? <==>
              && TextField(input.title, Some(200)).Cleaned?
              && TextField(input.description, None).Cleaned?
              && ChooseCategory(categories, input.category).None?
              && input.file.Some? && input.file.value != "" && |input.file.value| <= FileNameMaxLength
    ensures r.Valid? ==> exists c :: c in categories && c.id == r.data.category
    ensures r.Valid? ==> r.data.title == Stripped(input.title) != "" && |r.data.title| <= 200
    ensures r.Valid? ==>
              r.data == UploadData(Stripped(input.title), Stripped(input.description),
                                   input.category.value, input.file.value)
  {
    var title := TextField(input.title, Some(200));
    var description := TextField(input.description, None);
    var category := ChooseCategory(categories, input.category);
    var errors := ErrorsOf("title", title) + ErrorsOf("description", description)
                  + ChoiceErrors("category", category)
                  + RequiredFileErrors("file", input.file);
    if errors == [] then
      Valid(UploadData(title.value, description.value, input.category.value, input.file.value))
    else Rejected(errors)
  }

  datatype FeedbackInput = FeedbackInput(comment: Option<string>)

  /** `FeedbackForm(data).is_valid()`: the comment is required. */
  function ValidateFeedback(input: FeedbackInput): (r: Validated<string>)
    ensures r.Valid? <==> Stripped(input.comment) != "" && '\0' !in Stripped(input.comment)
    ensures r.Valid? ==> r.data == Stripped(input.comment)
  {
    var comment := TextField(input.comment, None);
    if comment.Cleaned? then Valid(comment.value) else Rejected(ErrorsOf("comment", comment))
  }

  datatype EventInput = EventInput(
    title: Option<string>, description: Option<string>, category: Option<nat>,
    date: Option<Date>, time: Option<string>, location: Option<string>, city: Option<string>,
    image: Option<string>)

  datatype EventData = EventData(
    title: string, description: string, category: Pk, date: Date, time: string,
    location: string, city: string, image: Option<string>)

  /** `EventForm(data, files).is_valid()`; the image is optional. */
  function ValidateEvent(categories: seq<Category>, input: EventInput): (r: Validated<EventData>)
    ensures r.Valid? <==>
              && TextField(input.title, Some(200)).Cleaned?
              && TextField(input.description, None).Cleaned?
              && ChooseCategory(categories, input.category).None?
              && input.date.Some? && input.time.Some?
              && TextField(input.location, Some(255)).Cleaned?
              && TextField(input.city, Some(100)).Cleaned?
              && (input.image.None? || (input.image.value != "" && |input.image.value| <= FileNameMaxLength))
    ensures r.Valid? ==> exists c :: c in categories && c.id == r.data.category
    ensures r.Valid? ==> |r.data.title| <= 200 && |r.data.location| <= 255 && |r.data.city| <= 100
    ensures r.Valid? ==>
              r.data == EventData(Stripped(input.title), Stripped(input.description), input.category.value,
                                  input.date.value, input.time.value, Stripped(input.location),
                                  Stripped(input.city), input.image)
  {
    var title := TextField(input.title, Some(200));
    var description := TextField(input.description, None);
    var category := ChooseCategory(categories, input.category);
    var location := TextField(input.location, Some(255));
    var city := TextField(input.city, Some(100));
    var errors := ErrorsOf("title", title) + ErrorsOf("description", description)
                  + ChoiceErrors("category", category)
                  + (if input.date.None? then [FieldErr("date", Required)] else [])
                  + (if input.time.None? then [FieldErr("time", Required)] else [])
                  + ErrorsOf("location", location) + ErrorsOf("city", city)
                  + OptionalFileErrors("image", input.image);
    if errors == [] then
      Valid(EventData(title.value, description.value, input.category.value, input.date.value,
                      input.time.value, location.value, city.value, input.image))
    else Rejected(errors)
  }

  datatype SettingsInput = SettingsInput(footerText: Option<string>, themeColor: Option<string>)

  /** `SiteSettingsForm(data).is_valid()`: both fields required, the colour at most 7 characters. */
  function ValidateSettings(input: SettingsInput): (r: Validated<SiteSettings>)
    ensures r.Valid? <==> TextField(input.footerText, None).Cleaned? && TextField(input.themeColor, Some(7)).Cleaned?
    ensures r.Valid? ==> |r.data.themeColor| <= 7 && r.data.footerText != ""
    ensures r.Valid? ==> r.data == SiteSettings(Stripped(input.footerText), Stripped(input.themeColor))
  {
    var footer := TextField(input.footerText, None);
    var color := TextField(input.themeColor, Some(7));
    var errors := ErrorsOf("footer_text", footer) + ErrorsOf("theme_color", color);
    if errors == [] then Valid(SiteSettings(footer.value, color.value)) else Rejected(errors)
  }

  /** The category form of the admin site: a required name of at most 100 characters, unique. */
  function ValidateCategory(categories: seq<Category>, name: Option<string>): (r: Validated<string>)
    ensures r.Valid? <==>
              TextField(name, Some(100)).Cleaned? && forall c :: c in categories ==> c.name != Stripped(name)
    ensures r.Valid? ==> forall c :: c in categories ==> c.name != r.data
    ensures r.Valid? ==> r.data == Stripped(name) != "" && |r.data| <= 100
  {
    var f := TextField(name, Some(100));
    match f
    case Invalid(_) => Rejected(ErrorsOf("name", f))
    case Cleaned(v) =>
      if exists c :: c in categories && c.name == v then Rejected([NameNotUnique]) else Valid(v)
  }
}
