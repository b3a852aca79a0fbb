# GreenApp (ecoapp) handlers as a Dafny model

GreenApp is a small Django site for eco-actions. Signed-in users upload
material, leave feedback and create events. Visitors search actions and
uploads. Staff edit the site settings and the team page. Accounts have a
two-step password reset kept in the browser session.

This project models the handlers that make real decisions. The database is an
immutable `Store` with one sequence of rows per table (`models.dfy`), and each
handler is a pure function from a store, the request and the session to a
response tag and a new store. `Valid` collects the database's declared
constraints:

- distinct primary keys;
- unique usernames and category names;
- one `LoginActivity` row per (user, day);
- one profile per user;
- every foreign key resolves;
- no live key is above the last key the table's sequence handed out.

Most handlers come with a lemma that they preserve `Valid`.

Modules:

- `Options`, `Seqs`, `Text`: option type, sequence filtering and uniqueness, and Python's `str.strip`, ASCII case folding, substring search and the comma split.
- `Models`: the tables, fresh keys, field defaults and `__str__`.
- `Accounts`: the normalisation Django's user model applies before saving a new user: NFKC on the username and a lower-cased email domain.
- `Forms`: Django's form cleaning for the forms the handlers use.
- `Http`: response tags and the signed-in user.
- `Signals`: the login-activity receiver.
- `Integrity`: `on_delete` rules and the unique category name.
- `Tracking`: client address, visit tracker and the user history page with its cookie counter.
- `Search`: the search page.
- `AuthViews`: registration and the two-step password reset.
- `ContentViews`: event detail, team member delete, site settings, and the upload, feedback and event forms.
- `Display`: the string forms of the rows, and the feedback finding below.

Modelling decisions:

- Keys are positive naturals. Each table the model inserts into with a generated key (users, categories, events) keeps the last key it handed out (`Issued`), as SQLite's `AUTOINCREMENT` sequence does: a new row gets one more than both that counter and every live key, so a key freed by a delete is never handed out again.
- The session is a map from names to keys. `reset_user_id` counts as set when it is present and non-zero, which is Python's truthiness of `session.get(...)`.
- Text fields are cleaned like Django's `CharField`: stripped with Python's whitespace set, required, limited by `max_length`, and refused when they hold a NUL character. Consequences:
  - A valid search query is already stripped and non-empty, so the `if query.strip()` test always passes for a valid form. A log row is written exactly when the form is valid.
  - The password-reset form compares the stripped passwords and stores the stripped new password.
- `User.objects.get(username=..., email=...)` in step one raises `MultipleObjectsReturned` when two users share a username and email. That outcome is modelled as `ServerError`. Usernames are unique in a valid store, so it cannot happen there.
- `track_visit` on a signed-in request whose client address is missing or empty fails. This happens with no forwarded-for header and no remote address, with an empty remote address, or with a forwarded-for header whose first entry is empty, such as `,10.0.0.1`. `GenericIPAddressField` stores an empty address as NULL, and the column is not nullable. The failure is modelled as a refused insert (`None`).
- The visit-counter cookie can hold any integer (`int()` accepts negatives). The first-visit flag is "new count == 1", as written, so a cookie of `0` is also a first visit.
- `TeamMemberDeleteView.dispatch` checks `is_staff` before `LoginRequiredMixin` runs. An anonymous visitor is therefore redirected to the team list with an error, like any non-staff user.
- `register_view` calls `login`, which fires `user_logged_in`. Registration therefore also records today's login activity.
- `RegisterForm` is a model form for `User`. After its own `clean_username` and `clean_email` pass, `_post_clean` runs `User.clean()`. That NFKC-normalises the username and lower-cases the email's domain. `validate_unique` then refuses a username whose normalised form a user already holds, and `form.save()` stores the normalised values. `clean_email` compares the email as typed, before the domain is lower-cased.
- The default footer text is kept as it is stored in `ecoapp/models.py:74`, including the mis-encoded `Â©`.

## Model

| member | source | states |
|---|---|---|
| Text.Strip | ecoapp/views.py:239 | Python's `str.strip()`: the result is a slice of the input with only whitespace outside it, has no whitespace at either end, and is empty exactly when the input is all whitespace |
| Text.StripIdempotent | ecoapp/views.py:239 | stripping an already stripped value changes nothing, so `query.strip()` on a cleaned query is the query |
| Text.StripUnpadded | ecoapp/views.py:239 | a value with no whitespace at either end is its own `strip()` |
| Text.Contains | ecoapp/tests.py:32 | Python's `needle in hay`: true exactly when the needle occurs at some position of the text |
| Text.LowerMeaning | ecoapp/views.py:236-237 | the folding behind `icontains` keeps the length, leaves no ASCII capital, maps each capital to its small letter and keeps every other character |
| Text.IContains | ecoapp/views.py:236-237 | `icontains` holds exactly when the folded query occurs at some position of the folded text |
| Text.BeforeFirstComma | ecoapp/views.py:166 | `s.split(',')[0]`: a prefix of the input with no comma, followed in the input by a comma or by nothing |
| Text.BeforeFirstCommaOfList | ecoapp/views.py:166 | for a list `head,rest` with no comma in `head`, the first entry is `head` exactly, blanks included |
| Text.BeforeFirstCommaNoComma | ecoapp/views.py:166 | a header holding a single address, with no comma, yields that address whole |
| Models.EmptyStoreValid | ecoapp/models.py:6-136 | an empty database satisfies every declared constraint |
| Models.Valid | ecoapp/models.py:6-133 | the constraints the tables declare: unique keys, usernames, category names, profiles and (user, day) login rows, resolving foreign keys, and keys within the issued sequence |
| Models.FreshPk | ecoapp/views.py:35 | one more than the largest live key: above every live key, and either 1 or a live key plus one |
| Models.NextKey | ecoapp/views.py:35 | the key the sequence hands out next is above every live key and above the last key issued, and is one more than one of them |
| Models.NextUserId | ecoapp/views.py:35 | the key a new user receives is above every live user key and above every user key issued before, deleted ones included |
| Models.NextCategoryId | ecoapp/models.py:23-24 | the same for categories |
| Models.NextEventId | ecoapp/views.py:295 | the same for events |
| Models.NextIdsFollowIssued | ecoapp/views.py:35 | in a consistent store the next key of each table is exactly the last issued key plus one |
| Models.FindUser | ecoapp/views.py:81 | `get(id=...)` finds a stored user with that key, or reports that no user has it |
| Models.NewEvent | ecoapp/models.py:133 | a newly created event starts with zero views and keeps its key, owner, title and category |
| Display.StrIsTitle | ecoapp/models.py:36-37 | the string form of an eco-action, an upload and an event is its title, and so contains the title (the checks of `ecoapp/tests.py:11-13` and `ecoapp/tests.py:21-23`) |
| Display.FeedbackStrAsWritten | ecoapp/models.py:108-109 | the feedback string as written starts with "Feedback by " and is built only from the username and the timestamp |
| Display.FeedbackStrMissesComment | ecoapp/tests.py:25-32 | for the feedback of the test, the string as written does not contain "Great app", so the test's assertion fails |
| Display.FeedbackStr | ecoapp/tests.py:30-32 | the corrected feedback string keeps the "Feedback by" prefix and contains the comment |
| Display.FeedbackStrShowsComment | ecoapp/tests.py:25-32 | with the corrected string, the test's feedback string contains "Great app" |
| Accounts.CompatChar | ecoapp/forms.py:13-15 | the compatibility mapping of one character is ASCII or the character itself, and keeps ASCII |
| Accounts.NormalizeAsciiUsername | ecoapp/forms.py:13-15 | an ASCII username is stored as typed |
| Accounts.NormalizeUsernameIdempotent | ecoapp/forms.py:13-15 | a normalised username normalises to itself, as NFKC does |
| Accounts.NormalizeUsernameAppend | ecoapp/forms.py:13-15 | normalising a concatenation normalises each part |
| Accounts.LigatureUsernameIsPlain | ecoapp/forms.py:13-15 | the ligature spelling "ﬁona" is stored as "fiona" |
| Accounts.LastIndex | ecoapp/forms.py:13-15 | the position found holds the character and none follows it; none is found exactly when the character is absent |
| Accounts.NormalizeEmail | ecoapp/forms.py:13-15 | an address without '@' is kept; one with '@' keeps an '@'; a non-empty address stays non-empty |
| Accounts.NormalizeEmailLowersDomain | ecoapp/forms.py:13-15 | an address typed without surrounding blanks keeps its local part and has the domain after the last '@' lower-cased |
| Accounts.MixedCaseDomainIsLowered | ecoapp/forms.py:13-15 | "ann@Example.org" is stored as "ann@example.org" |
| Forms.CleanCharField | ecoapp/forms.py:105-112 | a text field is accepted exactly when its stripped value is non-blank (if required), within `max_length` and free of NUL, and the cleaned value is the stripped input |
| Forms.RegisterErrors | ecoapp/forms.py:10-27 | the form reports no error exactly when the username (at most 150 characters) and the email clean, the password checks pass, no user holds the stripped username or its normalised form, and no user holds the stripped email |
| Forms.ValidateRegister | ecoapp/forms.py:10-27 | an accepted registration has non-blank fields, passes the password checks, and yields the normalised username, which no user holds, and the normalised email; a refused one carries every error of the form |
| Forms.RegisterAcceptedExactly | ecoapp/forms.py:10-27 | the form is valid exactly when both fields clean, the password checks pass, and neither the stripped username, nor its normalised form, nor the stripped email is held by a user |
| Forms.RegisterAcceptsFresh | ecoapp/forms.py:10-27 | a username and email that clean and are unused (the username also in normalised form), with passing password checks, are accepted and registered as the normalised username and email |
| Forms.RegisterRejectsTakenEmail | ecoapp/forms.py:17-21 | an email some user already has is refused, with "already in use" on the email field |
| Forms.RegisterRejectsTakenUsername | ecoapp/forms.py:23-27 | a username some user already has is refused |
| Forms.RegisterRejectsNormalisedClash | ecoapp/forms.py:10-15 | a username whose normalised form a user already holds is refused by the unique check, even when nobody holds it as typed |
| Forms.RegisterCanRepeatStoredEmail | ecoapp/forms.py:17-21 | an email that differs from a stored one only before normalisation passes `clean_email`, and the new account then holds the same stored email |
| Forms.RegisterRequiresEmail | ecoapp/forms.py:11 | a missing or blank email is refused with a required-field error on the email |
| Forms.ValidatePasswordRequest | ecoapp/forms.py:39-41 | the request form is valid exactly when both username and email are non-blank, and yields their stripped values |
| Forms.ValidatePasswordReset | ecoapp/forms.py:43-53 | an accepted reset form yields one non-blank password equal to both stripped fields |
| Forms.PasswordResetRequiresBoth | ecoapp/forms.py:44-45 | a blank or missing password field makes the form invalid without the mismatch error |
| Forms.PasswordMismatchExactly | ecoapp/forms.py:47-53 | "Passwords do not match." is raised exactly when both fields clean and their values differ |
| Forms.PasswordResetAcceptsMatch | ecoapp/forms.py:43-53 | two equal acceptable passwords pass, giving that password |
| Forms.ValidateSearch | ecoapp/forms.py:104-112 | the search form is valid exactly when the query string is non-empty, has a non-blank `query` of at most 255 characters without NUL, and the cleaned query is its stripped value |
| Forms.ValidQueryHasVisibleText | ecoapp/views.py:239 | a valid query always passes the `query.strip()` test and respects the 255-character bound |
| Forms.FileErrors | ecoapp/models.py:44 | a submitted file name is accepted exactly when it is non-empty and at most 100 characters, the default `max_length` of a `FileField` (also `ecoapp/models.py:132` for the image) |
| Forms.ValidateUpload | ecoapp/forms.py:57-60 | given an accepted file, the upload form is valid exactly when title (at most 200) and description clean, the category exists, and a file is sent whose name is non-empty and at most 100 characters; the data is the stripped title and description, the category and the file (limits from `ecoapp/models.py:39-44`) |
| Forms.ValidateFeedback | ecoapp/forms.py:98-101 | a comment is accepted exactly when it is non-blank and free of NUL, and is stored stripped |
| Forms.ValidateEvent | ecoapp/forms.py:90-93 | given a parsed date and time and an accepted image, the event form is valid exactly when title, description, location and city clean within the lengths of `ecoapp/models.py:124-132`, the category exists, a date and a time are given, and an image, if sent, has a non-empty name of at most 100 characters; the data is the stripped texts, the category, date, time and the optional image |
| Forms.ValidateSettings | ecoapp/forms.py:80-83 | the settings form is valid exactly when both fields are non-blank and the colour has at most 7 characters; the saved row is the stripped footer and colour |
| Forms.ValidateCategory | ecoapp/models.py:24 | a category name is accepted exactly when it cleans (non-blank, at most 100 characters) and no category has the stripped name; the accepted name is that stripped name |
| Http.CurrentUser | ecoapp/views.py:155 | the signed-in user is a stored user with the session's key, or there is none |
| Http.IsStaff | ecoapp/views.py:204 | staff rights come only from a stored staff user carrying the session's key; an anonymous request is never staff |
| Http.IsStaffExactly | ecoapp/views.py:204 | with unique user keys, a request is staff exactly when the user with its key is staff |
| Signals.LogLoginActivity | ecoapp/signals.py:6-9 | after a login the (user, today) row exists, no row is lost, at most one is added, and no other table changes |
| Signals.LoginIdempotent | ecoapp/signals.py:9 | a second login by the same user on the same day changes nothing |
| Signals.FirstLoginOfDayAddsOneRow | ecoapp/signals.py:9 | the first login of a day appends exactly the (user, today) row |
| Signals.RepeatLoginAddsNoRow | ecoapp/signals.py:9 | a login on a day already recorded leaves the store as it was |
| Signals.LoginLeavesOtherUsers | ecoapp/signals.py:9 | a login leaves the count of every other user's login rows as it was |
| Signals.LoginKeepsOneRowPerDay | ecoapp/models.py:115-116 | the one-row-per-(user, day) constraint survives a login |
| Signals.AtMostOneRowPerDay | ecoapp/models.py:115-116 | under that constraint each (user, day) row occurs at most once |
| Signals.LoginLeavesExactlyOneRow | ecoapp/signals.py:9 | after a login exactly one row records that user's day |
| Signals.LoginPreservesValid | ecoapp/signals.py:9 | logging in an existing user keeps every integrity constraint |
| Integrity.DeleteCategory | ecoapp/models.py:32 | deleting a category touches only the categories and the three tables that refer to categories |
| Integrity.DeleteCategoryKeepsDependents | ecoapp/models.py:32 | after a category delete, every eco-action, upload and event is kept with only its category changed: null if it was the deleted one (also `ecoapp/models.py:43`, `ecoapp/models.py:126`) |
| Integrity.DeleteCategoryLeavesNoReference | ecoapp/models.py:126 | after a category delete, the category is gone and no row refers to it |
| Integrity.DeleteCategoryPreservesValid | ecoapp/models.py:24-43 | deleting a category keeps every integrity constraint |
| Integrity.DeleteUser | ecoapp/models.py:98 | deleting a user leaves the categories, settings and team unchanged |
| Integrity.DeleteUserCascades | ecoapp/models.py:6-14 | after a user delete, the user is gone, and exactly their profiles, histories, eco-actions, uploads, visit rows, feedback, login rows and events are removed (also `ecoapp/models.py:33`, `ecoapp/models.py:40`, `ecoapp/models.py:53`, `ecoapp/models.py:104`, `ecoapp/models.py:112`, `ecoapp/models.py:127`) |
| Integrity.DeleteUserKeepsSearchLogs | ecoapp/models.py:95-98 | every search log row survives a user delete with the same query and time, and a null user if it was the deleted one |
| Integrity.DeleteUserPreservesValid | ecoapp/models.py:6-127 | deleting a user keeps every integrity constraint |
| Integrity.DeleteUserIds | ecoapp/models.py:14 | the user keys after a delete are exactly the previous ones minus the deleted key |
| Integrity.AddCategory | ecoapp/models.py:24 | adding a category either changes nothing or appends one category with its key recorded as issued |
| Integrity.AddCategoryAcceptsFreshName | ecoapp/models.py:24 | a clean name no category has is inserted, stripped, under the next key of the category sequence |
| Integrity.AddCategoryRejectsDuplicateName | ecoapp/models.py:24 | a name some category already has is refused and nothing is stored |
| Integrity.AddCategoryPreservesValid | ecoapp/models.py:24 | category names stay unique, and every other constraint holds, after an insert |
| Integrity.DeletedUserKeyNotReissued | ecoapp/models.py:14 | after a user is deleted, the next user key is above the deleted key and every earlier key |
| Integrity.DeletedCategoryKeyNotReissued | ecoapp/models.py:32 | after a category is deleted, the next category key is above the deleted key |
| Tracking.ClientIp | ecoapp/views.py:164-166 | with a non-empty forwarded-for header the address is its prefix up to the first comma; otherwise the direct address, which may be absent |
| Tracking.ClientIpIsFirstHop | ecoapp/views.py:166 | for a header `client, proxies...` the reported address is the client entry exactly |
| Tracking.ClientIpDoesNotTrim | ecoapp/views.py:166 | blanks around the first entry are kept, and an empty first entry is reported as empty |
| Tracking.ClientIpFallsBack | ecoapp/views.py:165-166 | without a forwarded-for header, or with an empty one, the direct address is used |
| Tracking.TrackVisit | ecoapp/views.py:152-162 | the insert fails exactly for a signed-in request without a storable address (`ecoapp/models.py:54`); otherwise tracking appends at most one row, with a non-empty address, to the visit table and changes no other table |
| Tracking.BlankAddressRefused | ecoapp/models.py:54 | a signed-in request whose client address is missing or empty fails the insert |
| Tracking.EmptyFirstHopRefused | ecoapp/views.py:166 | a forwarded-for header `,10.0.0.1` names an empty client, so a signed-in request fails whatever its direct address |
| Tracking.AnonymousVisitNotTracked | ecoapp/views.py:155 | an anonymous request writes nothing |
| Tracking.SignedInVisitTracked | ecoapp/views.py:155-160 | a signed-in request with a non-empty client address appends exactly one row with the user, that address and the user agent (empty when absent), and changes nothing else |
| Tracking.TrackVisitPreservesValid | ecoapp/models.py:53 | tracking keeps every integrity constraint |
| Tracking.SortDescending | ecoapp/views.py:130 | `order_by('-login_date')`: the dates newest first, a permutation of the input |
| Tracking.CountVisit | ecoapp/views.py:133-136 | the count is the cookie plus one (missing counts as zero), the first-visit flag holds exactly for a missing or zero cookie, the previous visit defaults to "First Visit", and both cookies are rewritten with the new count and the current time |
| Tracking.HistoryNeedsLogin | ecoapp/views.py:128 | an anonymous visitor is sent to the login page |
| Tracking.UserHistoryView | ecoapp/views.py:128-149 | the page is a login redirect exactly for an anonymous visitor; otherwise the dates are newest first, the total is their number, and the cookies hold the shown count and the current time for 30 days |
| Tracking.HistoryCounter | ecoapp/views.py:133-148 | the page shows the cookie count plus one, first visit exactly for a missing or zero cookie, the previous visit or "First Visit", and both cookies are rewritten for 30 days |
| Tracking.HistoryRevisit | ecoapp/views.py:133-148 | a browser returning with the cookies it was given sees the count go up by one, its previous visit time and no first-visit flag |
| Tracking.HistoryWritesCounterCookies | ecoapp/views.py:147-148 | the cookies written back hold the new count and the current time, and the first-visit flag is "new count is 1" |
| Tracking.HistoryCountsVisits | ecoapp/views.py:133-136 | from a fresh browser, the view after `n` earlier views shows count `n + 1`, and only the first view is a first visit |
| Tracking.FreshBrowserCount | ecoapp/views.py:147 | after `n > 0` views from a fresh browser the counter cookie holds `n` |
| Tracking.HistoryLoginSummary | ecoapp/views.py:130-140 | the total is the number of the user's login rows, and the dates are exactly the days of those rows, newest first |
| Tracking.HistoryDatesStrictlyDescending | ecoapp/models.py:115-116 | with one row per (user, day), the listed dates strictly decrease, so no day is listed twice |
| Search.MatchingActions | ecoapp/views.py:236 | the eco-action results are exactly the stored actions whose title or description contains the query case-insensitively, each as often as stored |
| Search.MatchingUploads | ecoapp/views.py:237 | the same for uploads |
| Search.ActionMatchMeaning | ecoapp/views.py:236 | an action matches exactly when the folded query occurs in its folded title or folded description |
| Search.UploadMatchMeaning | ecoapp/views.py:237 | the same for uploads |
| Search.SearchView | ecoapp/views.py:228-247 | only the search log can change, by at most one appended row; every listed action or upload is stored and matches the echoed query, which has no surrounding whitespace; an empty query lists and writes nothing |
| Search.SearchResultsExact | ecoapp/views.py:234-246 | with a valid query the page lists exactly the matching actions and uploads and echoes the cleaned query |
| Search.SearchRefusedQuery | ecoapp/views.py:229-234 | a missing or refused query shows empty lists and an empty query, and writes nothing |
| Search.SearchWithoutParameters | ecoapp/views.py:229 | `request.GET or None`: an empty query string leaves the form unbound, so nothing is found or logged |
| Search.SearchLogsAcceptedQueries | ecoapp/views.py:234-240 | exactly one log row, holding the query and the signed-in user or null, is written when the query is valid, and none otherwise; nothing else changes |
| Search.SearchFindsTitlePrefix | ecoapp/views.py:236 | a stored action whose title starts with the query, in any letter case, is found |
| Search.SearchPreservesValid | ecoapp/models.py:98 | searching keeps every integrity constraint |
| AuthViews.CredentialMatches | ecoapp/views.py:61 | the lookup finds exactly the users whose username and email both equal the submitted ones, each as often as stored |
| AuthViews.CredentialMatchIsThatUser | ecoapp/views.py:61 | with unique usernames, a user's own username and email match that user alone |
| AuthViews.PasswordRequestPost | ecoapp/views.py:55-66 | step one changes no session entry but the reset key; it moves to step two only after naming a stored user with the stripped username and email, and otherwise leaves the session as it was |
| AuthViews.RememberMatch | ecoapp/views.py:61-66 | after a valid form, the browser goes to step two only with the key of a user having both submitted values; otherwise the session is kept |
| AuthViews.ResetRequestRemembersUser | ecoapp/views.py:57-63 | when a user has exactly the submitted pair, the session's reset key becomes that user's key and the browser goes to step two |
| AuthViews.ResetRequestWithoutMatch | ecoapp/views.py:64-66 | when no user has the pair, the form is shown again with an error and the session is unchanged |
| AuthViews.PasswordResetGet | ecoapp/views.py:69-73 | the confirm page redirects exactly when the session has no reset target |
| AuthViews.SetPassword | ecoapp/views.py:82-83 | only the user with the given key gets the new password; every other user is unchanged |
| AuthViews.PasswordResetPost | ecoapp/views.py:75-87 | step two changes only the users, and only by setting the target's password to the stripped new password; it reaches the login page exactly with a reset target, a valid form and a stored target, then drops only the reset key; every other answer changes nothing |
| AuthViews.ResetTarget | ecoapp/views.py:81-86 | with a valid form, a stored target gets the password and the key is cleared; a target no user has is a 404 that changes nothing |
| AuthViews.ResetForMissingUser | ecoapp/views.py:81 | a reset key naming no stored user answers 404 and changes nothing |
| AuthViews.ResetNeedsTarget | ecoapp/views.py:70-77 | without a reset target both GET and POST go back to step one and change nothing |
| AuthViews.ResetRefusedFormChangesNothing | ecoapp/views.py:78-87 | a refused form re-renders and leaves the password and the session key as they were |
| AuthViews.ResetSetsPassword | ecoapp/views.py:79-86 | an accepted form sets the target's password, leaves every other user and table unchanged, removes only the reset key, and sends the browser to the login page |
| AuthViews.ResetIsOneShot | ecoapp/views.py:84 | after a successful reset, replaying the form goes back to step one |
| AuthViews.TwoStepResetSetsPassword | ecoapp/views.py:55-86 | naming a user by username and email and then confirming a password sets that user's password |
| AuthViews.ResetPreservesValid | ecoapp/views.py:75-87 | the reset keeps every integrity constraint |
| AuthViews.SetPasswordPreservesValid | ecoapp/views.py:82-83 | setting a password keeps every integrity constraint |
| AuthViews.RegisterView | ecoapp/views.py:31-40 | a session is signed in exactly for a POST whose username and email clean, are unused (the username also in normalised form), and pass the password checks; the new user then holds the normalised username and email and the browser goes home; otherwise the form is shown again and nothing changes |
| AuthViews.RegisterCreatesAccount | ecoapp/views.py:31-37 | an accepted registration appends one non-staff user with a fresh key, the normalised username and email and the password, signs them in, records today's login, and changes no other table |
| AuthViews.RegisterRefusedChangesNothing | ecoapp/views.py:34-40 | a refused registration creates nothing and signs nobody in |
| AuthViews.RegisterPreservesValid | ecoapp/views.py:31-40 | registration keeps every integrity constraint |
| AuthViews.RegisterAddsOnlyNewKeys | ecoapp/views.py:35 | every user after registration existed before or has a key above every key issued so far |
| AuthViews.AcceptedRegistration | ecoapp/views.py:34-37 | after an accepted form, the store is the user appended under the next key followed by today's login signal |
| AuthViews.RegisteredEmailAsTypedNotFound | ecoapp/views.py:35 | after registering an email that normalisation changes ("ann@Example.org"), step one of the reset with the same username and email finds no account and shows the error (also `ecoapp/views.py:61-65`) |
| AuthViews.StaleResetTargetNotFound | ecoapp/views.py:62 | a reset key kept across a delete of its user, and a later registration, still finds no user and answers 404: the new account never takes the old key (also `ecoapp/views.py:81`) |
| ContentViews.FindEvent | ecoapp/views.py:283 | the event lookup finds a stored event with that key, or reports that none has it |
| ContentViews.EventDetail | ecoapp/views.py:282-286 | a key no event has is a 404; otherwise only the events change, each one kept or, when it has the key, given one more view |
| ContentViews.EventDetailCountsOneView | ecoapp/views.py:282-286 | fetching an existing event raises its views by exactly one and changes no other field, no other event and no other table |
| ContentViews.EventDetailMissing | ecoapp/views.py:283 | a key no event has is a 404 and changes nothing |
| ContentViews.EventDetailKeepsKeys | ecoapp/views.py:284-285 | a fetch keeps every event key, never lowers any view count, and leaves other events unchanged |
| ContentViews.FetchesAddUp | ecoapp/views.py:284 | `n` fetches of an existing event raise its views by exactly `n` and change nothing else in it |
| ContentViews.EventDetailPreservesValid | ecoapp/models.py:133 | fetching keeps every integrity constraint |
| ContentViews.TeamMemberWithout | ecoapp/views.py:199-202 | the delete removes exactly the member with that key |
| ContentViews.TeamMemberDelete | ecoapp/views.py:199-208 | a visitor without staff rights gets the error redirect exactly; only the team can change, only members with the key can disappear, and only on a staff POST |
| ContentViews.TeamDeleteNeedsStaff | ecoapp/views.py:204-208 | without staff rights nothing is deleted and the visitor lands on the team list with an error |
| ContentViews.TeamDeleteAsksFirst | ecoapp/views.py:199-201 | staff asking with GET get the confirmation page and nothing is deleted |
| ContentViews.TeamDeleteRemovesMember | ecoapp/views.py:199-208 | a staff POST removes exactly the member with that key, keeps every other member, and touches no other table |
| ContentViews.TeamDeletePreservesValid | ecoapp/views.py:199-208 | deleting a team member keeps every integrity constraint |
| ContentViews.CurrentSettings | ecoapp/views.py:213-215 | the edited row is the first settings row, or an unsaved row with the declared defaults |
| ContentViews.SaveSettings | ecoapp/views.py:218-220 | saving overwrites the first row, or creates it when there is none, and keeps the rest |
| ContentViews.SaveSettingsIdempotent | ecoapp/views.py:218-220 | saving the same values twice is the same as saving them once |
| ContentViews.SettingsNeedStaff | ecoapp/views.py:211 | without staff rights the settings are neither shown nor changed |
| ContentViews.SiteSettingsEditView | ecoapp/views.py:211-225 | without staff rights the visitor goes to the admin login and nothing changes; a save happens exactly on a staff POST with a valid form, and then the first settings row is the stripped footer and colour and later rows are kept |
| ContentViews.SettingsSaveFirstRow | ecoapp/views.py:212-222 | a valid staff POST leaves the submitted values as the current settings, adds a row only when there was none, and keeps later rows and every other table |
| ContentViews.SettingsEditIdempotent | ecoapp/views.py:212-222 | submitting the same settings request twice leaves the store as submitting it once |
| ContentViews.SettingsEditPreservesValid | ecoapp/views.py:211-225 | editing the settings keeps every integrity constraint |
| ContentViews.EventRow | ecoapp/views.py:293-295 | the inserted event has a fresh key, the requesting user as owner, zero views, and the cleaned fields |
| ContentViews.SignedInFormsNeedLogin | ecoapp/views.py:90 | the upload, feedback and create-event pages send an anonymous visitor to the login page and change nothing (also `ecoapp/views.py:250`, `ecoapp/views.py:288`) |
| ContentViews.UploadView | ecoapp/views.py:90-102 | an anonymous visitor goes to the login page; a row is appended exactly on a signed-in POST with a valid form, owned by the user and holding the stripped title and description, the category, the file and the time; otherwise nothing changes |
| ContentViews.FeedbackView | ecoapp/views.py:250-261 | an anonymous visitor goes to the login page; exactly a signed-in POST with a valid comment appends the user's row with the stripped comment; otherwise nothing changes |
| ContentViews.CreateEventView | ecoapp/views.py:288-300 | an anonymous visitor goes to the login page; exactly a signed-in POST with a valid form appends one event, under a key no event has, owned by the user, with no views and the stripped title; otherwise nothing changes |
| ContentViews.UploadStampsOwner | ecoapp/views.py:94-99 | a valid upload appends exactly one row owned by the signed-in user with the cleaned fields |
| ContentViews.FeedbackStampsOwner | ecoapp/views.py:254-258 | a valid comment appends exactly one feedback row owned by the signed-in user |
| ContentViews.CreateEventStampsOwner | ecoapp/views.py:292-297 | a valid event form appends exactly one event owned by the signed-in user, under a fresh key, with zero views |
| ContentViews.RefusedFormsChangeNothing | ecoapp/views.py:92-102 | an invalid upload, feedback or event form re-renders and changes nothing (also `ecoapp/views.py:252-261`, `ecoapp/views.py:290-300`) |
| ContentViews.UploadPreservesValid | ecoapp/views.py:90-102 | uploading keeps every integrity constraint |
| ContentViews.FeedbackPreservesValid | ecoapp/views.py:250-261 | leaving feedback keeps every integrity constraint |
| ContentViews.CreateEventPreservesValid | ecoapp/views.py:288-300 | creating an event keeps every integrity constraint |

## Left out

- Templates, messages and HTTP redirects: a handler returns a response tag (`Render`, `Redirect`, `NotFound`, ...) instead of a page. The flash messages are not modelled.
- URL routing (`ecoapp/urls.py`) and the admin registrations (`ecoapp/admin.py`): declarative configuration. The admin's category form is modelled only as `Integrity.AddCategory`.
- Password hashing: `set_password` stores the new password as given.
- `UserCreationForm`'s own password checks (password1 equal to password2, strength validators): these are Django internals, so the model takes their verdict as the input flag `passwordChecksPass`.
- Email format validation and the username character rules: these are Django internals. Email and username are cleaned as plain text fields, which accept some addresses and names Django would refuse.
- The `int()` parse of the `visit_count` cookie: the cookie arrives as an integer, or as absent. A cookie that is not a number would make the view fail, and that is not modelled.
- Clocks: today's date and the current formatted time are parameters.
- File and image storage: a file is modelled by its stored name.
- Concurrency: simultaneous view-count increments or login upserts are delegated to the database.
- `login_required` and `staff_member_required` are reduced to a signed-in user (`Http.CurrentUser`) and an `is_staff` flag. Their redirects are the `Login` and `AdminLogin` tags, and the `next` parameter is dropped. The `is_active` flag is not modelled.
- Handlers with no decision logic are not modelled: `HomeView`, login and logout, `ActionListView`/`ActionDetailView`, `contact_view`, `user_uploads_view`, `EventListView`, the team list, and `team_member_create`/`team_member_edit`. The JavaScript under `static/` is UI and is not modelled.
- `Event.views` is a `PositiveIntegerField` with a 32-bit database limit. The model counts with unbounded naturals, so no overflow is modelled.
- Forms.ValidateUpload / Forms.ValidateEvent: file, image, date and time inputs are taken as already accepted by Django's field parsers. A file or image is represented by its name only. The model checks that the name is present and at most 100 characters long (`max_length`). It does not check that the contents are non-empty, that an image is one Pillow can open, or that date and time text parses; those inputs arrive as a `Date` or as time text.
- HTTP verbs other than GET and POST are not modelled: `Method` has only `Get` and `Post`. The function views treat any other verb like GET, and the class-based `View` and `DeleteView` handlers answer 405 to verbs they do not define.
- `GenericIPAddressField` normalises IPv6 addresses on save (`clean_ipv6_address`) and the database may check the format. The model stores the address text as given and refuses only a missing or empty one.
- Case folding is ASCII only: `icontains` on non-ASCII letters may fold more in the database than in the model, and `Accounts.NormalizeEmail` lower-cases only ASCII letters of the domain where Python's `str.lower()` folds every letter.
- Accounts.NormalizeUsername: NFKC is modelled character by character, for the fullwidth ASCII forms, the Latin ligatures U+FB00–FB06 and the no-break and ideographic spaces; every other character is kept. The full Unicode compatibility tables and canonical composition (a letter followed by a combining mark) are not modelled. The 150-character limit is checked on the name before normalisation, as Django does, so a normalised name may be longer.
- Forms.ValidateRegister: the accepted account's email is not promised to differ from every stored email. `clean_email` compares the address as typed, and the domain is lower-cased only afterwards (`Forms.RegisterCanRepeatStoredEmail`).

## Findings

| source | as written | input that shows it | evidently intended | confidence | as-written member | corrected member |
|---|---|---|---|---|---|---|
| ecoapp/models.py:108-109 | `Feedback.__str__` is "Feedback by <username> at <submitted_at>" and never includes the comment | user "feedbackuser", comment "Great app!": the string has no "Great app", so the assertion of `ecoapp/tests.py:32` fails | the string form also shows the comment, as the test expects | not executed | Display.FeedbackStrMissesComment | Display.FeedbackStrShowsComment |
