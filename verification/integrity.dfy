/**
 * The referential-integrity rules declared on the models of ecoapp/models.py:
 * what deleting a category or a user does to the rows that refer to it, and
 * the unique category name.
 */
module Integrity {
  import opened Options
  import opened Seqs
  import opened Models
  import Forms

  /** `on_delete=SET_NULL`: a reference to the deleted row becomes null. */
  function SetNull(r: Option<Pk>, deleted: Pk): Option<Pk> {
    if r == Some(deleted) then None else r
  }

  function DetachActions(rows: seq<EcoAction>, cid: Pk): seq<EcoAction> {
    seq(|rows|, i requires 0 <= i < |rows| => rows[i].(category := SetNull(rows[i].category, cid)))
  }

  function DetachUploads(rows: seq<Upload>, cid: Pk): seq<Upload> {
    seq(|rows|, i requires 0 <= i < |rows| => rows[i].(category := SetNull(rows[i].category, cid)))
  }

  function DetachEvents(rows: seq<Event>, cid: Pk): seq<Event> {
    seq(|rows|, i requires 0 <= i < |rows| => rows[i].(category := SetNull(rows[i].category, cid)))
  }

  function DetachSearchLogs(rows: seq<SearchLog>, uid: Pk): seq<SearchLog> {
    seq(|rows|, i requires 0 <= i < |rows| => rows[i].(user := SetNull(rows[i].user, uid)))
  }

  /** Deleting category `cid`: EcoAction, Upload and Event rows keep living with a null category. */
  function DeleteCategory(s: Store, cid: Pk): (r: Store)
    ensures r == s.(categories := r.categories, actions := r.actions, uploads := r.uploads, events := r.events)
  {
    s.(categories := Filter(s.categories, (c: Category) => c.id != cid),
       actions := DetachActions(s.actions, cid),
       uploads := DetachUploads(s.uploads, cid),
       events := DetachEvents(s.events, cid))
  }

  /** Deleting a category deletes no dependent row and changes nothing in them but the category. */
  lemma DeleteCategoryKeepsDependents(s: Store, cid: Pk)
    ensures var r := DeleteCategory(s, cid);
            && |r.actions| == |s.actions| && |r.uploads| == |s.uploads| && |r.events| == |s.events|
            && (forall i :: 0 <= i < |s.actions| ==>
                  r.actions[i].category == (if s.actions[i].category == Some(cid) then None else s.actions[i].category)
                  && r.actions[i] == s.actions[i].(category := r.actions[i].category))
            && (forall i :: 0 <= i < |s.uploads| ==>
                  r.uploads[i].category == (if s.uploads[i].category == Some(cid) then None else s.uploads[i].category)
                  && r.uploads[i] == s.uploads[i].(category := r.uploads[i].category))
            && (forall i :: 0 <= i < |s.events| ==>
                  r.events[i].category == (if s.events[i].category == Some(cid) then None else s.events[i].category)
                  && r.events[i] == s.events[i].(category := r.events[i].category))
  {
  }

  /** After deleting a category, nothing refers to it and the category itself is gone. */
  lemma DeleteCategoryLeavesNoReference(s: Store, cid: Pk)
    ensures var r := DeleteCategory(s, cid);
            && cid !in CategoryIds(r)
            && (forall a :: a in r.actions ==> a.category != Some(cid))
            && (forall u :: u in r.uploads ==> u.category != Some(cid))
            && (forall e :: e in r.events ==> e.category != Some(cid))
  {
  }

  /** Deleting a category keeps every integrity constraint. */
  lemma DeleteCategoryPreservesValid(s: Store, cid: Pk)
    requires Valid(s)
    ensures Valid(DeleteCategory(s, cid))
  {
    DeleteCategoryKeepsUnique(s, cid);
    DeleteCategoryKeepsOwners(s, cid);
    DeleteCategoryKeepsCategories(s, cid);
  }

  lemma DeleteCategoryKeepsUnique(s: Store, cid: Pk)
    requires UniqueColumns(s)
    ensures UniqueColumns(DeleteCategory(s, cid))
  {
    var r := DeleteCategory(s, cid);
    FilterKeepsDistinct(s.categories, (c: Category) => c.id != cid, CategoryId);
    FilterKeepsDistinct(s.categories, (c: Category) => c.id != cid, CategoryName);
    assert Distinct(r.events, EventId) by {
      forall i, j | 0 <= i < j < |r.events| ensures EventId(r.events[i]) != EventId(r.events[j]) {
        assert EventId(r.events[i]) == EventId(s.events[i]);
        assert EventId(r.events[j]) == EventId(s.events[j]);
      }
    }
  }

  lemma DeleteCategoryKeepsOwners(s: Store, cid: Pk)
    requires OwnersExist(s)
    ensures OwnersExist(DeleteCategory(s, cid))
  {
    var r := DeleteCategory(s, cid);
    assert UserIds(r) == UserIds(s);
    forall a | a in r.actions ensures a.user in UserIds(s) {
      var i :| 0 <= i < |r.actions| && r.actions[i] == a;
      assert s.actions[i] in s.actions;
    }
    forall u | u in r.uploads ensures u.user in UserIds(s) {
      var i :| 0 <= i < |r.uploads| && r.uploads[i] == u;
      assert s.uploads[i] in s.uploads;
    }
    forall e | e in r.events ensures e.user in UserIds(s) {
      var i :| 0 <= i < |r.events| && r.events[i] == e;
      assert s.events[i] in s.events;
    }
  }

  lemma DeleteCategoryKeepsCategories(s: Store, cid: Pk)
    requires CategoriesExist(s)
    ensures CategoriesExist(DeleteCategory(s, cid))
  {
    var r := DeleteCategory(s, cid);
    assert CategoryIds(r) == CategoryIds(s) - {cid};
    forall a | a in r.actions ensures Resolves(a.category, CategoryIds(s) - {cid}) {
      var i :| 0 <= i < |r.actions| && r.actions[i] == a;
      assert s.actions[i] in s.actions;
    }
    forall u | u in r.uploads ensures Resolves(u.category, CategoryIds(s) - {cid}) {
      var i :| 0 <= i < |r.uploads| && r.uploads[i] == u;
      assert s.uploads[i] in s.uploads;
    }
    forall e | e in r.events ensures Resolves(e.category, CategoryIds(s) - {cid}) {
      var i :| 0 <= i < |r.events| && r.events[i] == e;
      assert s.events[i] in s.events;
    }
  }

  /**
   * Deleting user `uid`: EcoAction, Upload, Feedback, UserHistory, LoginActivity,
   * Event, VisitTracker and UserProfile rows of the user go with it
   * (`on_delete=CASCADE`); SearchLog rows stay with a null user (`SET_NULL`).
   */
  function DeleteUser(s: Store, uid: Pk): (r: Store)
    ensures r.categories == s.categories && r.settings == s.settings && r.team == s.team
    ensures r.issued == s.issued
  {
    Store(
      Filter(s.users, (u: User) => u.id != uid),
      Filter(s.profiles, (p: UserProfile) => p.user != uid),
      Filter(s.histories, (h: UserHistory) => h.user != uid),
      s.categories,
      Filter(s.actions, (a: EcoAction) => a.user != uid),
      Filter(s.uploads, (u: Upload) => u.user != uid),
      Filter(s.visits, (v: VisitTracker) => v.user != Some(uid)),
      s.settings,
      s.team,
      DetachSearchLogs(s.searchLogs, uid),
      Filter(s.feedback, (f: Feedback) => f.user != uid),
      Filter(s.logins, (l: LoginActivity) => l.user != uid),
      Filter(s.events, (e: Event) => e.user != uid),
      s.issued)
  }

  /** The deleted user's owned rows are gone and every other user's rows are kept. */
  lemma DeleteUserCascades(s: Store, uid: Pk)
    ensures var r := DeleteUser(s, uid);
            && uid !in UserIds(r)
            && (forall a :: a in r.actions <==> a in s.actions && a.user != uid)
            && (forall u :: u in r.uploads <==> u in s.uploads && u.user != uid)
            && (forall f :: f in r.feedback <==> f in s.feedback && f.user != uid)
            && (forall h :: h in r.histories <==> h in s.histories && h.user != uid)
            && (forall l :: l in r.logins <==> l in s.logins && l.user != uid)
            && (forall e :: e in r.events <==> e in s.events && e.user != uid)
            && (forall v :: v in r.visits <==> v in s.visits && v.user != Some(uid))
            && (forall p :: p in r.profiles <==> p in s.profiles && p.user != uid)
  {
  }

  /** The deleted user's search log rows are kept, now anonymous. */
  lemma DeleteUserKeepsSearchLogs(s: Store, uid: Pk)
    ensures var r := DeleteUser(s, uid);
            && |r.searchLogs| == |s.searchLogs|
            && forall i :: 0 <= i < |s.searchLogs| ==>
                 && r.searchLogs[i].query == s.searchLogs[i].query
                 && r.searchLogs[i].searchedAt == s.searchLogs[i].searchedAt
                 && r.searchLogs[i].user == (if s.searchLogs[i].user == Some(uid) then None else s.searchLogs[i].user)
  {
  }

  /** Deleting a user keeps every integrity constraint. */
  lemma DeleteUserPreservesValid(s: Store, uid: Pk)
    requires Valid(s)
    ensures Valid(DeleteUser(s, uid))
  {
    DeleteUserKeepsUnique(s, uid);
    DeleteUserKeepsOwners(s, uid);
    DeleteUserKeepsCategories(s, uid);
  }

  lemma DeleteUserKeepsUnique(s: Store, uid: Pk)
    requires UniqueColumns(s)
    ensures UniqueColumns(DeleteUser(s, uid))
  {
    FilterKeepsDistinct(s.users, (u: User) => u.id != uid, UserId);
    FilterKeepsDistinct(s.users, (u: User) => u.id != uid, Username);
    FilterKeepsDistinct(s.events, (e: Event) => e.user != uid, EventId);
    FilterKeepsDistinct(s.profiles, (p: UserProfile) => p.user != uid, ProfileOwner);
    FilterKeepsDistinct(s.logins, (l: LoginActivity) => l.user != uid, LoginKey);
  }

  lemma DeleteUserKeepsOwners(s: Store, uid: Pk)
    requires OwnersExist(s)
    ensures OwnersExist(DeleteUser(s, uid))
  {
    DeleteUserIds(s, uid);
    DeleteUserKeepsLogOwners(s, uid);
    DeleteUserKeepsContentOwners(s, uid);
    DeleteUserKeepsRecordOwners(s, uid);
  }

  lemma DeleteUserKeepsRecordOwners(s: Store, uid: Pk)
    requires OwnersExist(s)
    ensures var r := DeleteUser(s, uid);
            var ids := UserIds(s) - {uid};
            && (forall p :: p in r.profiles ==> p.user in ids)
            && (forall h :: h in r.histories ==> h.user in ids)
            && (forall v :: v in r.visits ==> Resolves(v.user, ids))
            && (forall l :: l in r.logins ==> l.user in ids)
  {
  }

  lemma DeleteUserKeepsContentOwners(s: Store, uid: Pk)
    requires OwnersExist(s)
    ensures var r := DeleteUser(s, uid);
            var ids := UserIds(s) - {uid};
            && (forall a :: a in r.actions ==> a.user in ids)
            && (forall u :: u in r.uploads ==> u.user in ids)
            && (forall e :: e in r.events ==> e.user in ids)
            && (forall f :: f in r.feedback ==> f.user in ids)
  {
  }

  lemma DeleteUserIds(s: Store, uid: Pk)
    ensures UserIds(DeleteUser(s, uid)) == UserIds(s) - {uid}
  {
  }

  lemma DeleteUserKeepsLogOwners(s: Store, uid: Pk)
    requires forall l :: l in s.searchLogs ==> Resolves(l.user, UserIds(s))
    ensures forall l :: l in DeleteUser(s, uid).searchLogs ==> Resolves(l.user, UserIds(s) - {uid})
  {
    var r := DeleteUser(s, uid);
    forall l | l in r.searchLogs ensures Resolves(l.user, UserIds(s) - {uid}) {
      var i :| 0 <= i < |r.searchLogs| && r.searchLogs[i] == l;
      assert s.searchLogs[i] in s.searchLogs;
    }
  }

  lemma DeleteUserKeepsCategories(s: Store, uid: Pk)
    requires CategoriesExist(s)
    ensures CategoriesExist(DeleteUser(s, uid))
  {
  }

  /**
   * A deleted user's key is never handed out again: the next user key after
   * the delete is larger than it, and than every key the store ever held.
   */
  lemma DeletedUserKeyNotReissued(s: Store, u: User)
    requires Valid(s) && u in s.users
    ensures NextUserId(DeleteUser(s, u.id)) > u.id
    ensures forall v :: v in s.users ==> NextUserId(DeleteUser(s, u.id)) > v.id
  {
    var r := DeleteUser(s, u.id);
    assert r.issued == s.issued;
  }

  /** A deleted category's key is never handed out again. */
  lemma DeletedCategoryKeyNotReissued(s: Store, c: Category)
    requires Valid(s) && c in s.categories
    ensures NextCategoryId(DeleteCategory(s, c.id)) > c.id
  {
  }

  /** The admin's category form: a new category is stored only under a name no category has. */
  function AddCategory(s: Store, name: Option<string>): (r: Store)
    ensures r == s || (exists c: Category :: r == s.(categories := s.categories + [c], issued := s.issued.(categories := c.id)))
  {
    match Forms.ValidateCategory(s.categories, name)
    case Rejected(_) => s
    case Valid(n) =>
      var id := NextCategoryId(s);
      s.(categories := s.categories + [Category(id, n)], issued := s.issued.(categories := id))
  }

  /** A clean name no category holds is inserted under the next key of the category sequence. */
  lemma AddCategoryAcceptsFreshName(s: Store, name: Option<string>)
    requires Forms.TextField(name, Some(100)).Cleaned?
    requires forall c :: c in s.categories ==> c.name != Forms.Stripped(name)
    ensures AddCategory(s, name)
            == s.(categories := s.categories + [Category(NextCategoryId(s), Forms.Stripped(name))],
                  issued := s.issued.(categories := NextCategoryId(s)))
  {
  }

  /** A name some category already has is refused. */
  lemma AddCategoryRejectsDuplicateName(s: Store, name: Option<string>, c: Category)
    requires c in s.categories && c.name == Forms.Stripped(name)
    ensures AddCategory(s, name) == s
  {
  }

  /** Category names stay unique, and every other constraint holds, after an insert. */
  lemma AddCategoryPreservesValid(s: Store, name: Option<string>)
    requires Valid(s)
    ensures Valid(AddCategory(s, name))
  {
    var v := Forms.ValidateCategory(s.categories, name);
    if v.Valid? {
      AppendCategoryPreservesValid(s, Category(NextCategoryId(s), v.data));
    }
  }

  lemma AppendCategoryPreservesValid(s: Store, c: Category)
    requires Valid(s)
    requires forall d :: d in s.categories ==> d.id != c.id && d.name != c.name
    requires c.id > s.issued.categories
    ensures Valid(s.(categories := s.categories + [c], issued := s.issued.(categories := c.id)))
  {
    AppendCategoryKeepsUnique(s, c);
    var r := s.(categories := s.categories + [c], issued := s.issued.(categories := c.id));
    assert CategoryIds(r) == CategoryIds(s) + {c.id};
    assert UserIds(r) == UserIds(s);
  }

  lemma AppendCategoryKeepsUnique(s: Store, c: Category)
    requires UniqueColumns(s)
    requires forall d :: d in s.categories ==> d.id != c.id && d.name != c.name
    ensures UniqueColumns(s.(categories := s.categories + [c], issued := s.issued.(categories := c.id)))
  {
    forall i | 0 <= i < |s.categories| ensures CategoryId(s.categories[i]) != CategoryId(c) {
      assert s.categories[i] in s.categories;
    }
    forall i | 0 <= i < |s.categories| ensures CategoryName(s.categories[i]) != CategoryName(c) {
      assert s.categories[i] in s.categories;
    }
    AppendKeepsDistinct(s.categories, c, CategoryId);
    AppendKeepsDistinct(s.categories, c, CategoryName);
  }
}
