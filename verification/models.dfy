/**
 * The persistent tables of ecoapp/models.py as an immutable store, with the
 * constraints the database keeps: unique primary keys, unique usernames and
 * category names, one login-activity row per (user, day), one profile per
 * user, and every foreign key pointing at an existing row.
 */
module Models {
  import opened Options
  import opened Seqs

  /** An auto-assigned primary key; the database starts counting at 1. */
  type Pk = n: nat | n >= 1 witness 1

  /** A calendar day, as a day number. */
  type Date = nat

  /** A server timestamp, passed in by the caller (clock reads are not modelled). */
  type Timestamp = string

  /** Django's auth user. `password` is the value last handed to `set_password`. */
  datatype User = User(id: Pk, username: string, email: string, password: string, isStaff: bool)

  datatype UserProfile = UserProfile(user: Pk, bio: string)

  datatype UserHistory = UserHistory(user: Pk, visitDate: Date, visitCount: nat)

  datatype Category = Category(id: Pk, name: string)

  datatype EcoAction = EcoAction(
    title: string, description: string, category: Option<Pk>, user: Pk, createdAt: Timestamp)

  datatype Upload = Upload(
    user: Pk, title: string, description: string, category: Option<Pk>, file: string,
    uploadedAt: Timestamp)

  datatype VisitTracker = VisitTracker(
    user: Option<Pk>, ipAddress: string, userAgent: string, visitTime: Timestamp)

  datatype SiteSettings = SiteSettings(footerText: string, themeColor: string)

  datatype TeamMember = TeamMember(id: Pk, name: string, role: string, bio: string, photo: string)

  datatype SearchLog = SearchLog(query: string, searchedAt: Timestamp, user: Option<Pk>)

  datatype Feedback = Feedback(user: Pk, comment: string, submittedAt: Timestamp)

  datatype LoginActivity = LoginActivity(user: Pk, loginDate: Date)

  datatype Event = Event(
    id: Pk, title: string, description: string, category: Option<Pk>, user: Pk, date: Date,
    time: string, location: string, city: string, image: Option<string>, views: nat,
    createdAt: Timestamp)

  /**
   * The largest primary key each table with inserts has ever handed out (the
   * database's AUTOINCREMENT sequence): deleting a row never lowers it, so a
   * deleted row's key is never given to a new row.
   */
  datatype Issued = Issued(users: nat, categories: nat, events: nat)

  /** Every table of the application, each as its rows in primary-key order. */
  datatype Store = Store(
    users: seq<User>,
    profiles: seq<UserProfile>,
    histories: seq<UserHistory>,
    categories: seq<Category>,
    actions: seq<EcoAction>,
    uploads: seq<Upload>,
    visits: seq<VisitTracker>,
    settings: seq<SiteSettings>,
    team: seq<TeamMember>,
    searchLogs: seq<SearchLog>,
    feedback: seq<Feedback>,
    logins: seq<LoginActivity>,
    events: seq<Event>,
    issued: Issued)

  const EmptyStore := Store([], [], [], [], [], [], [], [], [], [], [], [], [], Issued(0, 0, 0))

  // Column accessors used as uniqueness keys.
  function UserId(u: User): Pk { u.id }
  function Username(u: User): string { u.username }
  function CategoryId(c: Category): Pk { c.id }
  function CategoryName(c: Category): string { c.name }
  function EventId(e: Event): Pk { e.id }
  function TeamMemberId(m: TeamMember): Pk { m.id }
  function ProfileOwner(p: UserProfile): Pk { p.user }
  function LoginKey(l: LoginActivity): (Pk, Date) { (l.user, l.loginDate) }

  function UserIds(s: Store): set<Pk> { set u | u in s.users :: u.id }
  function CategoryIds(s: Store): set<Pk> { set c | c in s.categories :: c.id }

  /** A nullable reference is either null or resolves in `ids`. */
  predicate Resolves(r: Option<Pk>, ids: set<Pk>) { r.Some? ==> r.value in ids }

  /** Every user reference points at an existing user. */
  ghost predicate OwnersExist(s: Store) {
    var ids := UserIds(s);
    && (forall p :: p in s.profiles ==> p.user in ids)
    && (forall h :: h in s.histories ==> h.user in ids)
    && (forall a :: a in s.actions ==> a.user in ids)
    && (forall u :: u in s.uploads ==> u.user in ids)
    && (forall v :: v in s.visits ==> Resolves(v.user, ids))
    && (forall l :: l in s.searchLogs ==> Resolves(l.user, ids))
    && (forall f :: f in s.feedback ==> f.user in ids)
    && (forall l :: l in s.logins ==> l.user in ids)
    && (forall e :: e in s.events ==> e.user in ids)
  }

  /** Every category reference is null or points at an existing category. */
  ghost predicate CategoriesExist(s: Store) {
    var ids := CategoryIds(s);
    && (forall a :: a in s.actions ==> Resolves(a.category, ids))
    && (forall u :: u in s.uploads ==> Resolves(u.category, ids))
    && (forall e :: e in s.events ==> Resolves(e.category, ids))
  }

  /** The unique columns of the schema. */
  ghost predicate UniqueColumns(s: Store) {
    && Distinct(s.users, UserId)
    && Distinct(s.users, Username)
    && Distinct(s.categories, CategoryId)
    && Distinct(s.categories, CategoryName)
    && Distinct(s.events, EventId)
    && Distinct(s.team, TeamMemberId)
    && Distinct(s.profiles, ProfileOwner)
    && Distinct(s.logins, LoginKey)
  }

  /** No stored key exceeds the largest key its table has handed out. */
  ghost predicate KeysIssued(s: Store) {
    && (forall u :: u in s.users ==> u.id <= s.issued.users)
    && (forall c :: c in s.categories ==> c.id <= s.issued.categories)
    && (forall e :: e in s.events ==> e.id <= s.issued.events)
  }

  /** The integrity constraints the database maintains. */
  ghost predicate Valid(s: Store) {
    UniqueColumns(s) && OwnersExist(s) && CategoriesExist(s) && KeysIssued(s)
  }

  /** The empty database satisfies every constraint. */
  lemma EmptyStoreValid()
    ensures Valid(EmptyStore)
  {
  }

  /** One more than the largest key in `ids`, or 1 when there is none. */
  function FreshPk(ids: seq<Pk>): (r: Pk)
    ensures forall i :: 0 <= i < |ids| ==> ids[i] < r
    ensures r == 1 || r - 1 in ids
    decreases |ids|
  {
    if |ids| == 0 then 1
    else
      var rest := FreshPk(ids[1..]);
      assert forall i :: 1 <= i < |ids| ==> ids[i] == ids[1..][i - 1];
      if ids[0] < rest then rest else ids[0] + 1
  }

  /** The key AUTOINCREMENT hands out next: one more than both the live keys and every key handed out before. */
  function NextKey(ids: seq<Pk>, issued: nat): (r: Pk)
    ensures forall i :: 0 <= i < |ids| ==> ids[i] < r
    ensures issued < r
    ensures r - 1 == issued || r - 1 in ids
  {
    var above := FreshPk(ids);
    if above > issued then above else issued + 1
  }

  function UserPks(users: seq<User>): seq<Pk> { seq(|users|, i requires 0 <= i < |users| => users[i].id) }
  function CategoryPks(cs: seq<Category>): seq<Pk> { seq(|cs|, i requires 0 <= i < |cs| => cs[i].id) }
  function EventPks(es: seq<Event>): seq<Pk> { seq(|es|, i requires 0 <= i < |es| => es[i].id) }

  /** The primary key the next inserted user receives: the least key above every live and every issued one. */
  function NextUserId(s: Store): (r: Pk)
    ensures forall u :: u in s.users ==> u.id < r
    ensures s.issued.users < r
    ensures r - 1 == s.issued.users || exists u :: u in s.users && u.id == r - 1
  {
    var ids := UserPks(s.users);
    assert forall i :: 0 <= i < |s.users| ==> ids[i] == s.users[i].id;
    NextKey(ids, s.issued.users)
  }

  /** The primary key the next inserted category receives. */
  function NextCategoryId(s: Store): (r: Pk)
    ensures forall c :: c in s.categories ==> c.id < r
    ensures s.issued.categories < r
    ensures r - 1 == s.issued.categories || exists c :: c in s.categories && c.id == r - 1
  {
    var ids := CategoryPks(s.categories);
    assert forall i :: 0 <= i < |s.categories| ==> ids[i] == s.categories[i].id;
    NextKey(ids, s.issued.categories)
  }

  /** The primary key the next inserted event receives. */
  function NextEventId(s: Store): (r: Pk)
    ensures forall e :: e in s.events ==> e.id < r
    ensures s.issued.events < r
    ensures r - 1 == s.issued.events || exists e :: e in s.events && e.id == r - 1
  {
    var ids := EventPks(s.events);
    assert forall i :: 0 <= i < |s.events| ==> ids[i] == s.events[i].id;
    NextKey(ids, s.issued.events)
  }

  /** In a valid store the sequence alone decides the next key: it is the issued counter plus one. */
  lemma NextIdsFollowIssued(s: Store)
    requires KeysIssued(s)
    ensures NextUserId(s) == s.issued.users + 1
    ensures NextCategoryId(s) == s.issued.categories + 1
    ensures NextEventId(s) == s.issued.events + 1
  {
  }

  /** The user with primary key `id`, if one exists (Django's `User.objects.get(id=...)`). */
  function FindUser(users: seq<User>, id: nat): (r: Option<User>)
    ensures r.Some? ==> r.value in users && r.value.id == id
    ensures r.None? ==> forall u :: u in users ==> u.id != id
  {
    match FindFirst(users, (u: User) => u.id == id)
    case Some(i) => Some(users[i])
    case None => None
  }

  /** A new event as `EventForm.save()` inserts it: its view counter starts at zero. */
  function NewEvent(
    id: Pk, title: string, description: string, category: Option<Pk>, user: Pk, date: Date,
    time: string, location: string, city: string, image: Option<string>, now: Timestamp): (e: Event)
    ensures e.views == 0
    ensures e.id == id && e.user == user && e.title == title && e.category == category
  {
    Event(id, title, description, category, user, date, time, location, city, image, 0, now)
  }

  /** Default footer text of the site settings row, character for character as the source file holds it. */
  const DefaultFooterText: string := "\U{00C2}\U{00A9} 2025 GreenWorld. All rights reserved."

  /** Default theme colour of the site settings row. */
  const DefaultThemeColor: string := "#28a745"

  /** An unsaved settings row with the declared field defaults (`SiteSettings()`). */
  const DefaultSettings := SiteSettings(DefaultFooterText, DefaultThemeColor)

  // String forms (`__str__`) of the rows that have one.
  function EcoActionStr(a: EcoAction): string { a.title }
  function UploadStr(u: Upload): string { u.title }
  function EventStr(e: Event): string { e.title }
  function CategoryStr(c: Category): string { c.name }
  function TeamMemberStr(m: TeamMember): string { m.name }
  function SearchLogStr(l: SearchLog): string { "Search: " + l.query }
}
