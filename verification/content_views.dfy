/**
 * Content handlers of ecoapp/views.py: the event detail page and its view
 * counter, the staff-only team-member delete and site-settings edit, and the
 * three signed-in forms that stamp the new row with the requesting user.
 */
module ContentViews {
  import opened Options
  import opened Seqs
  import opened Models
  import opened Http
  import Forms

  /** The response of a handler together with the store it leaves behind. */
  datatype Outcome = Outcome(response: Response, store: Store)

  // ---------------------------------------------------------------------------
  // EventDetailView.get_object
  // ---------------------------------------------------------------------------

  /** The position of the event with key `pk` (`get_object_or_404`). */
  function FindEvent(events: seq<Event>, pk: nat): (r: Option<nat>)
    ensures r.Some? ==> r.value < |events| && events[r.value].id == pk
    ensures r.None? ==> forall e :: e in events ==> e.id != pk
  {
    FindFirst(events, (e: Event) => e.id == pk)
  }

  /** Opening an event's detail page adds one to its view counter and saves it. */
  function EventDetail(s: Store, pk: nat): (r: Outcome)
    ensures r.response == NotFound <==> forall e :: e in s.events ==> e.id != pk
    ensures r.response != NotFound ==> r.response == Render(EventDetailPage)
    ensures r.store == s.(events := r.store.events) && |r.store.events| == |s.events|
    ensures forall i :: 0 <= i < |s.events| ==>
              || r.store.events[i] == s.events[i]
              || (s.events[i].id == pk && r.store.events[i] == s.events[i].(views := s.events[i].views + 1))
  {
    match FindEvent(s.events, pk)
    case None => Outcome(NotFound, s)
    case Some(i) =>
      Outcome(Render(EventDetailPage), s.(events := s.events[i := s.events[i].(views := s.events[i].views + 1)]))
  }

  /**
   * A fetch of an existing event raises that event's counter by exactly one,
   * leaves its other fields, every other event and every other table as they were.
   */
  lemma EventDetailCountsOneView(s: Store, pk: nat)
    requires Distinct(s.events, EventId)
    requires exists e :: e in s.events && e.id == pk
    ensures var r := EventDetail(s, pk);
            && r.response == Render(EventDetailPage)
            && r.store == s.(events := r.store.events)
            && |r.store.events| == |s.events|
            && (forall i :: 0 <= i < |s.events| && s.events[i].id == pk ==>
                  r.store.events[i] == s.events[i].(views := s.events[i].views + 1))
            && (forall i :: 0 <= i < |s.events| && s.events[i].id != pk ==> r.store.events[i] == s.events[i])
  {
    var k := FindEvent(s.events, pk).value;
    forall i | 0 <= i < |s.events| && s.events[i].id == pk ensures i == k {
      DistinctKeyDeterminesIndex(s.events, EventId, i, k);
    }
  }

  /** A key no event has is a 404 and changes nothing. */
  lemma EventDetailMissing(s: Store, pk: nat)
    requires forall e :: e in s.events ==> e.id != pk
    ensures EventDetail(s, pk) == Outcome(NotFound, s)
  {
  }

  /** The store after `n` consecutive fetches of the event with key `pk`. */
  function FetchTimes(s: Store, pk: nat, n: nat): Store
    decreases n
  {
    if n == 0 then s else FetchTimes(EventDetail(s, pk).store, pk, n - 1)
  }

  /** A fetch leaves the list of event keys, and so their uniqueness, as it was. */
  lemma EventDetailKeepsKeys(s: Store, pk: nat)
    ensures var r := EventDetail(s, pk).store;
            && |r.events| == |s.events|
            && (forall i :: 0 <= i < |s.events| ==> r.events[i].id == s.events[i].id)
            && (forall i :: 0 <= i < |s.events| && s.events[i].id != pk ==> r.events[i] == s.events[i])
            && (forall i :: 0 <= i < |s.events| ==> r.events[i].views >= s.events[i].views)
  {
  }

  /** `n` fetches of an existing event raise its counter by exactly `n`. */
  lemma {:induction false} FetchesAddUp(s: Store, pk: nat, n: nat, i: nat)
    requires Distinct(s.events, EventId)
    requires i < |s.events| && s.events[i].id == pk
    ensures |FetchTimes(s, pk, n).events| == |s.events|
    ensures FetchTimes(s, pk, n).events[i] == s.events[i].(views := s.events[i].views + n)
    decreases n
  {
    if n > 0 {
      var t := EventDetail(s, pk).store;
      OneFetch(s, pk, i);
      FetchesAddUp(t, pk, n - 1, i);
      assert FetchTimes(s, pk, n) == FetchTimes(t, pk, n - 1);
      assert t.events[i].views + (n - 1) == s.events[i].views + n;
    }
  }

  /** One fetch in the terms the induction above needs. */
  lemma OneFetch(s: Store, pk: nat, i: nat)
    requires Distinct(s.events, EventId)
    requires i < |s.events| && s.events[i].id == pk
    ensures var t := EventDetail(s, pk).store;
            && Distinct(t.events, EventId)
            && |t.events| == |s.events|
            && t.events[i] == s.events[i].(views := s.events[i].views + 1)
  {
    assert s.events[i] in s.events;
    EventDetailCountsOneView(s, pk);
    EventDetailKeepsKeys(s, pk);
  }

  /** Fetching keeps every integrity constraint. */
  lemma EventDetailPreservesValid(s: Store, pk: nat)
    requires Valid(s)
    ensures Valid(EventDetail(s, pk).store)
  {
    var r := EventDetail(s, pk).store;
    EventDetailKeepsKeys(s, pk);
    forall e | e in r.events ensures e.user in UserIds(s) && Resolves(e.category, CategoryIds(s)) {
      var i :| 0 <= i < |r.events| && r.events[i] == e;
      assert s.events[i] in s.events;
    }
  }

  // ---------------------------------------------------------------------------
  // TeamMemberDeleteView
  // ---------------------------------------------------------------------------

  function TeamMemberWithout(team: seq<TeamMember>, pk: nat): (r: seq<TeamMember>)
    ensures forall m :: m in r <==> m in team && m.id != pk
    ensures forall m :: multiset(r)[m] == if m.id != pk then multiset(team)[m] else 0
  {
    Filter(team, (m: TeamMember) => m.id != pk)
  }

  /**
   * The delete view checks `is_staff` before anything else, so a visitor who
   * is not staff (signed in or not) is sent to the team list with an error.
   * Staff get the confirmation page on GET and delete the member on POST;
   * a key with no member is a 404.
   */
  function TeamMemberDelete(s: Store, auth: Option<nat>, verb: Method, pk: nat): (r: Outcome)
    ensures r.response == RedirectWithError(TeamList) <==> !IsStaff(s, auth)
    ensures r.store == s.(team := r.store.team)
    ensures forall m :: m in r.store.team ==> m in s.team
    ensures forall m :: m in s.team && m.id != pk ==> m in r.store.team
    ensures r.store != s ==> IsStaff(s, auth) && verb == Post && r.response == Redirect(TeamList)
  {
    if !IsStaff(s, auth) then Outcome(RedirectWithError(TeamList), s)
    else if forall m :: m in s.team ==> m.id != pk then Outcome(NotFound, s)
    else
      match verb
      case Get => Outcome(Render(TeamMemberConfirmDelete), s)
      case Post => Outcome(Redirect(TeamList), s.(team := TeamMemberWithout(s.team, pk)))
  }

  /** Without staff rights nothing is deleted and the visitor lands on the team list. */
  lemma TeamDeleteNeedsStaff(s: Store, auth: Option<nat>, verb: Method, pk: nat)
    requires !IsStaff(s, auth)
    ensures TeamMemberDelete(s, auth, verb, pk) == Outcome(RedirectWithError(TeamList), s)
  {
  }

  /** Staff asking with GET only see the confirmation page. */
  lemma TeamDeleteAsksFirst(s: Store, auth: Option<nat>, pk: nat)
    requires IsStaff(s, auth)
    requires exists m :: m in s.team && m.id == pk
    ensures TeamMemberDelete(s, auth, Get, pk) == Outcome(Render(TeamMemberConfirmDelete), s)
  {
  }

  /** A staff POST removes exactly the member with that key and touches nothing else. */
  lemma TeamDeleteRemovesMember(s: Store, auth: Option<nat>, pk: nat)
    requires IsStaff(s, auth)
    requires exists m :: m in s.team && m.id == pk
    ensures var r := TeamMemberDelete(s, auth, Post, pk);
            && r.response == Redirect(TeamList)
            && r.store == s.(team := r.store.team)
            && (forall m :: m in r.store.team <==> m in s.team && m.id != pk)
            && (forall m: TeamMember :: m.id != pk ==> multiset(r.store.team)[m] == multiset(s.team)[m])
  {
  }

  /** Deleting a team member keeps every integrity constraint. */
  lemma TeamDeletePreservesValid(s: Store, auth: Option<nat>, verb: Method, pk: nat)
    requires Valid(s)
    ensures Valid(TeamMemberDelete(s, auth, verb, pk).store)
  {
    var r := TeamMemberDelete(s, auth, verb, pk).store;
    if r != s {
      assert r == s.(team := TeamMemberWithout(s.team, pk));
      TeamWithoutPreservesValid(s, pk);
    }
  }

  lemma TeamWithoutPreservesValid(s: Store, pk: nat)
    requires Valid(s)
    ensures Valid(s.(team := TeamMemberWithout(s.team, pk)))
  {
    FilterKeepsDistinct(s.team, (m: TeamMember) => m.id != pk, TeamMemberId);
    var r := s.(team := TeamMemberWithout(s.team, pk));
    assert UserIds(r) == UserIds(s);
    assert CategoryIds(r) == CategoryIds(s);
  }

  // ---------------------------------------------------------------------------
  // site_settings_edit
  // ---------------------------------------------------------------------------

  /** The settings row the page edits: the first one, or an unsaved default one. */
  function CurrentSettings(s: Store): (r: SiteSettings)
    ensures |s.settings| > 0 ==> r == s.settings[0]
    ensures |s.settings| == 0 ==> r == DefaultSettings
  {
    if |s.settings| > 0 then s.settings[0] else DefaultSettings
  }

  /**
   * Staff only (others go to the admin login). A valid POST overwrites both
   * fields of the first settings row, or saves a new row when there is none.
   */
  function SiteSettingsEditView(s: Store, auth: Option<nat>, verb: Method, input: Forms.SettingsInput): (r: Outcome)
    ensures !IsStaff(s, auth) ==> r == Outcome(Redirect(AdminLogin), s)
    ensures r.response == Redirect(SiteSettingsEdit) <==>
              IsStaff(s, auth) && verb == Post && Forms.ValidateSettings(input).Valid?
    ensures r.response != Redirect(SiteSettingsEdit) ==> r.store == s
    ensures r.store == s.(settings := r.store.settings)
    ensures r.response == Redirect(SiteSettingsEdit) ==>
              && |r.store.settings| > 0
              && r.store.settings[0] == SiteSettings(Forms.Stripped(input.footerText), Forms.Stripped(input.themeColor))
              && r.store.settings[1..] == if |s.settings| == 0 then [] else s.settings[1..]
  {
    if !IsStaff(s, auth) then Outcome(Redirect(AdminLogin), s)
    else
      match verb
      case Get => Outcome(Render(SiteSettingsPage), s)
      case Post =>
        match Forms.ValidateSettings(input)
        case Rejected(_) => Outcome(Render(SiteSettingsPage), s)
        case Valid(row) => Outcome(Redirect(SiteSettingsEdit), s.(settings := SaveSettings(s.settings, row)))
  }

  /** `form.save()` on the edited row: the first row is overwritten, or the first row is created. */
  function SaveSettings(rows: seq<SiteSettings>, row: SiteSettings): (r: seq<SiteSettings>)
    ensures |r| == if |rows| == 0 then 1 else |rows|
    ensures r[0] == row
    ensures r[1..] == if |rows| == 0 then [] else rows[1..]
  {
    if |rows| > 0 then rows[0 := row] else [row]
  }

  /** Saving the same values twice is the same as saving them once. */
  lemma SaveSettingsIdempotent(rows: seq<SiteSettings>, row: SiteSettings)
    ensures SaveSettings(SaveSettings(rows, row), row) == SaveSettings(rows, row)
  {
    var once := SaveSettings(rows, row);
    assert once[0 := row] == once;
  }

  /** Without staff rights the settings are not shown and not changed. */
  lemma SettingsNeedStaff(s: Store, auth: Option<nat>, verb: Method, input: Forms.SettingsInput)
    requires !IsStaff(s, auth)
    ensures SiteSettingsEditView(s, auth, verb, input) == Outcome(Redirect(AdminLogin), s)
  {
  }

  /**
   * A valid staff POST leaves exactly one edited row at the front holding the
   * submitted values; any later rows and every other table stay as they were.
   */
  lemma SettingsSaveFirstRow(s: Store, auth: Option<nat>, input: Forms.SettingsInput)
    requires IsStaff(s, auth)
    requires Forms.ValidateSettings(input).Valid?
    ensures var r := SiteSettingsEditView(s, auth, Post, input);
            && r.response == Redirect(SiteSettingsEdit)
            && r.store == s.(settings := r.store.settings)
            && |r.store.settings| == (if |s.settings| == 0 then 1 else |s.settings|)
            && CurrentSettings(r.store) == Forms.ValidateSettings(input).data
            && r.store.settings[1..] == (if |s.settings| == 0 then [] else s.settings[1..])
  {
  }

  /** A valid edit never creates a second settings row, and submitting it twice is the same as once. */
  lemma SettingsEditIdempotent(s: Store, auth: Option<nat>, verb: Method, input: Forms.SettingsInput)
    ensures var once := SiteSettingsEditView(s, auth, verb, input).store;
            SiteSettingsEditView(once, auth, verb, input).store == once
  {
    var once := SiteSettingsEditView(s, auth, verb, input).store;
    if IsStaff(s, auth) && verb == Post && Forms.ValidateSettings(input).Valid? {
      var row := Forms.ValidateSettings(input).data;
      assert once == s.(settings := SaveSettings(s.settings, row));
      assert CurrentUser(once, auth) == CurrentUser(s, auth);
      SaveSettingsIdempotent(s.settings, row);
    } else {
      assert once == s;
    }
  }

  /** Editing the settings keeps every integrity constraint. */
  lemma SettingsEditPreservesValid(s: Store, auth: Option<nat>, verb: Method, input: Forms.SettingsInput)
    requires Valid(s)
    ensures Valid(SiteSettingsEditView(s, auth, verb, input).store)
  {
    var r := SiteSettingsEditView(s, auth, verb, input).store;
    assert r == s.(settings := r.settings);
    SettingsAreUnconstrained(s, r.settings);
  }

  /** No integrity constraint mentions the settings table. */
  lemma SettingsAreUnconstrained(s: Store, rows: seq<SiteSettings>)
    requires Valid(s)
    ensures Valid(s.(settings := rows))
  {
    var r := s.(settings := rows);
    assert UserIds(r) == UserIds(s);
    assert CategoryIds(r) == CategoryIds(s);
  }

  // ---------------------------------------------------------------------------
  // upload_view, feedback_view, create_event_view
  // ---------------------------------------------------------------------------

  /**
   * `upload_view`: signed-in only. A valid upload is saved with the requesting
   * user as owner and `now` as its upload time.
   */
  function UploadView(s: Store, auth: Option<nat>, verb: Method, input: Forms.UploadInput, now: Timestamp): (r: Outcome)
    ensures CurrentUser(s, auth).None? ==> r == Outcome(Redirect(Login), s)
    ensures r.response == Redirect(UserUploads) <==>
              CurrentUser(s, auth).Some? && verb == Post && Forms.ValidateUpload(s.categories, input).Valid?
    ensures r.response != Redirect(UserUploads) ==> r.store == s
    ensures r.store == s.(uploads := r.store.uploads)
    ensures r.response == Redirect(UserUploads) ==>
              && |r.store.uploads| == |s.uploads| + 1
              && r.store.uploads[..|s.uploads|] == s.uploads
              && var row := r.store.uploads[|s.uploads|];
                 && row.user == CurrentUser(s, auth).value.id
                 && row.title == Forms.Stripped(input.title)
                 && row.description == Forms.Stripped(input.description)
                 && row.category == Some(input.category.value)
                 && row.file == input.file.value
                 && row.uploadedAt == now
  {
    match CurrentUser(s, auth)
    case None => Outcome(Redirect(Login), s)
    case Some(user) =>
      match verb
      case Get => Outcome(Render(UploadPage), s)
      case Post =>
        match Forms.ValidateUpload(s.categories, input)
        case Rejected(_) => Outcome(Render(UploadPage), s)
        case Valid(d) =>
          var row := Upload(user.id, d.title, d.description, Some(d.category), d.file, now);
          Outcome(Redirect(UserUploads), s.(uploads := s.uploads + [row]))
  }

  /** `feedback_view`: signed-in only; the comment is saved under the requesting user. */
  function FeedbackView(s: Store, auth: Option<nat>, verb: Method, input: Forms.FeedbackInput, now: Timestamp): (r: Outcome)
    ensures CurrentUser(s, auth).None? ==> r == Outcome(Redirect(Login), s)
    ensures r.response == Redirect(Home) <==>
              CurrentUser(s, auth).Some? && verb == Post && Forms.ValidateFeedback(input).Valid?
    ensures r.response != Redirect(Home) ==> r.store == s
    ensures r.store == s.(feedback := r.store.feedback)
    ensures r.response == Redirect(Home) ==>
              r.store.feedback == s.feedback + [Feedback(CurrentUser(s, auth).value.id, Forms.Stripped(input.comment), now)]
  {
    match CurrentUser(s, auth)
    case None => Outcome(Redirect(Login), s)
    case Some(user) =>
      match verb
      case Get => Outcome(Render(FeedbackPage), s)
      case Post =>
        match Forms.ValidateFeedback(input)
        case Rejected(_) => Outcome(Render(FeedbackPage), s)
        case Valid(comment) => Outcome(Redirect(Home), s.(feedback := s.feedback + [Feedback(user.id, comment, now)]))
  }

  /** `create_event_view`: signed-in only; the event is saved under the requesting user with no views yet. */
  function CreateEventView(s: Store, auth: Option<nat>, verb: Method, input: Forms.EventInput, now: Timestamp): (r: Outcome)
    ensures CurrentUser(s, auth).None? ==> r == Outcome(Redirect(Login), s)
    ensures r.response == Redirect(EventList) <==>
              CurrentUser(s, auth).Some? && verb == Post && Forms.ValidateEvent(s.categories, input).Valid?
    ensures r.response != Redirect(EventList) ==> r.store == s
    ensures r.store == s.(events := r.store.events, issued := r.store.issued)
    ensures r.response == Redirect(EventList) ==>
              && |r.store.events| == |s.events| + 1
              && r.store.events[..|s.events|] == s.events
              && var e := r.store.events[|s.events|];
                 && (forall x :: x in s.events ==> x.id != e.id)
                 && e.user == CurrentUser(s, auth).value.id && e.views == 0
                 && e.title == Forms.Stripped(input.title)
                 && e.category == Some(input.category.value)
  {
    match CurrentUser(s, auth)
    case None => Outcome(Redirect(Login), s)
    case Some(user) =>
      match verb
      case Get => Outcome(Render(CreateEventPage), s)
      case Post =>
        match Forms.ValidateEvent(s.categories, input)
        case Rejected(_) => Outcome(Render(CreateEventPage), s)
        case Valid(d) =>
          var e := EventRow(s, user.id, d, now);
          Outcome(Redirect(EventList), s.(events := s.events + [e], issued := s.issued.(events := e.id)))
  }

  /** The row `EventForm.save()` inserts for `owner`: a fresh key, the cleaned fields, no views yet. */
  function EventRow(s: Store, owner: Pk, d: Forms.EventData, now: Timestamp): (e: Event)
    ensures forall x :: x in s.events ==> x.id != e.id
    ensures e.id > s.issued.events
    ensures e.user == owner && e.views == 0 && e.createdAt == now
    ensures e.title == d.title && e.description == d.description && e.category == Some(d.category)
    ensures e.date == d.date && e.time == d.time && e.location == d.location && e.city == d.city && e.image == d.image
  {
    NewEvent(NextEventId(s), d.title, d.description, Some(d.category), owner,
             d.date, d.time, d.location, d.city, d.image, now)
  }

  /** All three forms send an anonymous visitor to the login page and change nothing. */
  lemma SignedInFormsNeedLogin(
    s: Store, auth: Option<nat>, verb: Method, now: Timestamp,
    upload: Forms.UploadInput, feedback: Forms.FeedbackInput, event: Forms.EventInput)
    requires CurrentUser(s, auth).None?
    ensures UploadView(s, auth, verb, upload, now) == Outcome(Redirect(Login), s)
    ensures FeedbackView(s, auth, verb, feedback, now) == Outcome(Redirect(Login), s)
    ensures CreateEventView(s, auth, verb, event, now) == Outcome(Redirect(Login), s)
  {
  }

  /**
   * A valid upload adds exactly one row, owned by the signed-in user, holding
   * the cleaned fields; the form cannot choose the owner.
   */
  lemma UploadStampsOwner(s: Store, auth: Option<nat>, input: Forms.UploadInput, now: Timestamp)
    requires CurrentUser(s, auth).Some?
    requires Forms.ValidateUpload(s.categories, input).Valid?
    ensures var r := UploadView(s, auth, Post, input, now);
            var d := Forms.ValidateUpload(s.categories, input).data;
            && r.response == Redirect(UserUploads)
            && r.store == s.(uploads := s.uploads + [Upload(auth.value, d.title, d.description, Some(d.category), d.file, now)])
  {
    var u := CurrentUser(s, auth).value;
    assert u.id == auth.value;
    var d := Forms.ValidateUpload(s.categories, input).data;
    var row := Upload(u.id, d.title, d.description, Some(d.category), d.file, now);
    assert UploadView(s, auth, Post, input, now) == Outcome(Redirect(UserUploads), s.(uploads := s.uploads + [row]));
  }

  /** A valid comment adds exactly one feedback row owned by the signed-in user. */
  lemma FeedbackStampsOwner(s: Store, auth: Option<nat>, input: Forms.FeedbackInput, now: Timestamp)
    requires CurrentUser(s, auth).Some?
    requires Forms.ValidateFeedback(input).Valid?
    ensures var r := FeedbackView(s, auth, Post, input, now);
            && r.response == Redirect(Home)
            && r.store == s.(feedback := s.feedback + [Feedback(auth.value, Forms.Stripped(input.comment), now)])
  {
  }

  /**
   * A valid event form adds exactly one event, owned by the signed-in user,
   * under a key no event had, with its view counter at zero.
   */
  lemma CreateEventStampsOwner(s: Store, auth: Option<nat>, input: Forms.EventInput, now: Timestamp)
    requires CurrentUser(s, auth).Some?
    requires Forms.ValidateEvent(s.categories, input).Valid?
    ensures var r := CreateEventView(s, auth, Post, input, now);
            var d := Forms.ValidateEvent(s.categories, input).data;
            && r.response == Redirect(EventList)
            && r.store == s.(events := r.store.events, issued := r.store.issued)
            && |r.store.events| == |s.events| + 1
            && r.store.events[..|s.events|] == s.events
            && var e := r.store.events[|s.events|];
               && e.user == auth.value && e.views == 0 && e.title == d.title && e.category == Some(d.category)
               && (forall x :: x in s.events ==> x.id != e.id)
               && e.id > s.issued.events && r.store.issued == s.issued.(events := e.id)
  {
    var u := CurrentUser(s, auth).value;
    var d := Forms.ValidateEvent(s.categories, input).data;
    var e := EventRow(s, u.id, d, now);
    var r := CreateEventView(s, auth, Post, input, now);
    assert r.store.events == s.events + [e];
  }

  /** A refused form (GET, or invalid POST) by a signed-in user changes nothing. */
  lemma RefusedFormsChangeNothing(
    s: Store, auth: Option<nat>, now: Timestamp,
    upload: Forms.UploadInput, feedback: Forms.FeedbackInput, event: Forms.EventInput)
    requires CurrentUser(s, auth).Some?
    ensures Forms.ValidateUpload(s.categories, upload).Rejected? ==> UploadView(s, auth, Post, upload, now) == Outcome(Render(UploadPage), s)
    ensures Forms.ValidateFeedback(feedback).Rejected? ==> FeedbackView(s, auth, Post, feedback, now) == Outcome(Render(FeedbackPage), s)
    ensures Forms.ValidateEvent(s.categories, event).Rejected? ==> CreateEventView(s, auth, Post, event, now) == Outcome(Render(CreateEventPage), s)
  {
  }

  /** Saving an upload keeps every integrity constraint: owner and category exist. */
  lemma UploadPreservesValid(s: Store, auth: Option<nat>, verb: Method, input: Forms.UploadInput, now: Timestamp)
    requires Valid(s)
    ensures Valid(UploadView(s, auth, verb, input, now).store)
  {
    if UploadView(s, auth, verb, input, now).store != s {
      var row := CreatedUpload(s, auth, verb, input, now);
      AppendUploadPreservesValid(s, row);
    }
  }

  /** The upload a request inserts, when it inserts one. */
  lemma CreatedUpload(s: Store, auth: Option<nat>, verb: Method, input: Forms.UploadInput, now: Timestamp) returns (row: Upload)
    requires UploadView(s, auth, verb, input, now).store != s
    ensures UploadView(s, auth, verb, input, now).store == s.(uploads := s.uploads + [row])
    ensures row.user in UserIds(s) && Resolves(row.category, CategoryIds(s))
  {
    var u := CurrentUser(s, auth).value;
    var d := Forms.ValidateUpload(s.categories, input).data;
    row := Upload(u.id, d.title, d.description, Some(d.category), d.file, now);
    var c :| c in s.categories && c.id == d.category;
  }

  lemma AppendUploadPreservesValid(s: Store, row: Upload)
    requires Valid(s) && row.user in UserIds(s) && Resolves(row.category, CategoryIds(s))
    ensures Valid(s.(uploads := s.uploads + [row]))
  {
    var r := s.(uploads := s.uploads + [row]);
    assert UserIds(r) == UserIds(s);
    assert CategoryIds(r) == CategoryIds(s);
  }

  /** Saving feedback keeps every integrity constraint. */
  lemma FeedbackPreservesValid(s: Store, auth: Option<nat>, verb: Method, input: Forms.FeedbackInput, now: Timestamp)
    requires Valid(s)
    ensures Valid(FeedbackView(s, auth, verb, input, now).store)
  {
    if FeedbackView(s, auth, verb, input, now).store != s {
      var u := CurrentUser(s, auth).value;
      var row := Feedback(u.id, Forms.ValidateFeedback(input).data, now);
      assert FeedbackView(s, auth, verb, input, now).store == s.(feedback := s.feedback + [row]);
      AppendFeedbackPreservesValid(s, row);
    }
  }

  lemma AppendFeedbackPreservesValid(s: Store, row: Feedback)
    requires Valid(s) && row.user in UserIds(s)
    ensures Valid(s.(feedback := s.feedback + [row]))
  {
    var r := s.(feedback := s.feedback + [row]);
    assert UserIds(r) == UserIds(s);
    assert CategoryIds(r) == CategoryIds(s);
  }

  /** Saving an event keeps every integrity constraint, event keys included. */
  lemma CreateEventPreservesValid(s: Store, auth: Option<nat>, verb: Method, input: Forms.EventInput, now: Timestamp)
    requires Valid(s)
    ensures Valid(CreateEventView(s, auth, verb, input, now).store)
  {
    var r := CreateEventView(s, auth, verb, input, now).store;
    if r != s {
      var e := CreatedEvent(s, auth, verb, input, now);
      AppendEventPreservesValid(s, e);
    }
  }

  /** The event a create request inserts, when it inserts one. */
  lemma CreatedEvent(s: Store, auth: Option<nat>, verb: Method, input: Forms.EventInput, now: Timestamp) returns (e: Event)
    requires CreateEventView(s, auth, verb, input, now).store != s
    ensures CreateEventView(s, auth, verb, input, now).store == s.(events := s.events + [e], issued := s.issued.(events := e.id))
    ensures e.user in UserIds(s) && Resolves(e.category, CategoryIds(s))
    ensures forall x :: x in s.events ==> x.id != e.id
    ensures e.id > s.issued.events
  {
    var u := CurrentUser(s, auth).value;
    var d := Forms.ValidateEvent(s.categories, input).data;
    e := EventRow(s, u.id, d, now);
    assert CreateEventView(s, auth, verb, input, now)
        == Outcome(Redirect(EventList), s.(events := s.events + [e], issued := s.issued.(events := e.id)));
    assert u in s.users && u.id == e.user;
    var c :| c in s.categories && c.id == d.category;
  }

  lemma AppendEventPreservesValid(s: Store, e: Event)
    requires Valid(s) && e.user in UserIds(s) && Resolves(e.category, CategoryIds(s))
    requires forall x :: x in s.events ==> x.id != e.id
    requires e.id > s.issued.events
    ensures Valid(s.(events := s.events + [e], issued := s.issued.(events := e.id)))
  {
    var r := s.(events := s.events + [e], issued := s.issued.(events := e.id));
    forall i | 0 <= i < |s.events| ensures EventId(s.events[i]) != EventId(e) {
      assert s.events[i] in s.events;
    }
    AppendKeepsDistinct(s.events, e, EventId);
    assert UserIds(r) == UserIds(s);
    assert CategoryIds(r) == CategoryIds(s);
  }
}
