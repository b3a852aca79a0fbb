/**
 * `search_view` of ecoapp/views.py: a case-insensitive substring search of the
 * title or description of eco-actions and uploads, and a `SearchLog` row for
 * each accepted query.
 */
module Search {
  import opened Options
  import opened Seqs
  import Text
  import opened Models
  import opened Http
  import Forms

  /** `Q(title__icontains=q) | Q(description__icontains=q)` on an eco-action. */
  predicate ActionMatches(a: EcoAction, q: string) {
    Text.IContains(a.title, q) || Text.IContains(a.description, q)
  }

  /** The same condition on an upload. */
  predicate UploadMatches(u: Upload, q: string) {
    Text.IContains(u.title, q) || Text.IContains(u.description, q)
  }

  /** `EcoAction.objects.filter(Q(title__icontains=q) | Q(description__icontains=q))`. */
  function MatchingActions(actions: seq<EcoAction>, q: string): (r: seq<EcoAction>)
    ensures forall a :: a in r <==> a in actions && ActionMatches(a, q)
    ensures forall a :: multiset(r)[a] == if ActionMatches(a, q) then multiset(actions)[a] else 0
  {
    Filter(actions, (a: EcoAction) => ActionMatches(a, q))
  }

  /** `Upload.objects.filter(Q(title__icontains=q) | Q(description__icontains=q))`. */
  function MatchingUploads(uploads: seq<Upload>, q: string): (r: seq<Upload>)
    ensures forall u :: u in r <==> u in uploads && UploadMatches(u, q)
    ensures forall u :: multiset(r)[u] == if UploadMatches(u, q) then multiset(uploads)[u] else 0
  {
    Filter(uploads, (u: Upload) => UploadMatches(u, q))
  }

  datatype SearchPage = SearchPage(actions: seq<EcoAction>, uploads: seq<Upload>, query: string)

  datatype SearchOutcome = SearchOutcome(page: SearchPage, store: Store)

  function AuthorOf(user: Option<User>): (r: Option<Pk>)
    ensures r.Some? <==> user.Some?
    ensures r.Some? ==> r.value == user.value.id
  {
    match user
    case None => None
    case Some(u) => Some(u.id)
  }

  /** `search_view`: `params` is the query string, `now` the time a log row is stamped with. */
  function SearchView(s: Store, auth: Option<nat>, params: map<string, string>, now: Timestamp): (r: SearchOutcome)
    ensures r.store == s.(searchLogs := r.store.searchLogs)
    ensures s.searchLogs <= r.store.searchLogs && |r.store.searchLogs| <= |s.searchLogs| + 1
    ensures r.page.query == [] || (!Text.IsSpace(r.page.query[0]) && !Text.IsSpace(r.page.query[|r.page.query| - 1]))
    ensures forall a :: a in r.page.actions ==> a in s.actions && ActionMatches(a, r.page.query)
    ensures forall u :: u in r.page.uploads ==> u in s.uploads && UploadMatches(u, r.page.query)
    ensures r.page.query == "" ==> r.page.actions == [] && r.page.uploads == [] && r.store == s
  {
    match Forms.ValidateSearch(params)
    case None => SearchOutcome(SearchPage([], [], ""), s)
    case Some(q) =>
      Forms.ValidQueryHasVisibleText(params);
      var actions := MatchingActions(s.actions, q);
      var uploads := MatchingUploads(s.uploads, q);
      var store :=
        if Text.Strip(q) != "" then
          s.(searchLogs := s.searchLogs + [SearchLog(q, now, AuthorOf(CurrentUser(s, auth)))])
        else s;
      SearchOutcome(SearchPage(actions, uploads, q), store)
  }

  /**
   * A match means what the lookup says: the lower-cased query occurs in the
   * lower-cased title or in the lower-cased description.
   */
  lemma ActionMatchMeaning(a: EcoAction, q: string)
    ensures ActionMatches(a, q) <==>
              (exists i: nat :: Text.OccursAt(Text.Lower(q), Text.Lower(a.title), i))
              || (exists i: nat :: Text.OccursAt(Text.Lower(q), Text.Lower(a.description), i))
  {
  }

  /** The same meaning for uploads. */
  lemma UploadMatchMeaning(u: Upload, q: string)
    ensures UploadMatches(u, q) <==>
              (exists i: nat :: Text.OccursAt(Text.Lower(q), Text.Lower(u.title), i))
              || (exists i: nat :: Text.OccursAt(Text.Lower(q), Text.Lower(u.description), i))
  {
  }

  /**
   * With an accepted query, the results are exactly the matching eco-actions and
   * uploads, each as often as it is stored, and the page echoes the cleaned query.
   */
  lemma SearchResultsExact(s: Store, auth: Option<nat>, params: map<string, string>, now: Timestamp)
    requires Forms.ValidateSearch(params).Some?
    ensures var q := Forms.ValidateSearch(params).value;
            var page := SearchView(s, auth, params, now).page;
            && page.query == q
            && (forall a :: a in page.actions <==> a in s.actions && ActionMatches(a, q))
            && (forall a :: multiset(page.actions)[a] == if ActionMatches(a, q) then multiset(s.actions)[a] else 0)
            && (forall u :: u in page.uploads <==> u in s.uploads && UploadMatches(u, q))
            && (forall u :: multiset(page.uploads)[u] == if UploadMatches(u, q) then multiset(s.uploads)[u] else 0)
  {
    var q := Forms.ValidateSearch(params).value;
    var page := SearchView(s, auth, params, now).page;
    assert page.actions == MatchingActions(s.actions, q);
    assert page.uploads == MatchingUploads(s.uploads, q);
  }

  /** A missing or refused query finds nothing and logs nothing. */
  lemma SearchRefusedQuery(s: Store, auth: Option<nat>, params: map<string, string>, now: Timestamp)
    requires Forms.ValidateSearch(params).None?
    ensures SearchView(s, auth, params, now) == SearchOutcome(SearchPage([], [], ""), s)
  {
  }

  /** An empty query string leaves the form unbound: nothing is found or logged. */
  lemma SearchWithoutParameters(s: Store, auth: Option<nat>, now: Timestamp)
    ensures SearchView(s, auth, map[], now).page == SearchPage([], [], "")
    ensures SearchView(s, auth, map[], now).store == s
  {
  }

  /**
   * Exactly one log row is written when the query is accepted and none
   * otherwise; the row records the query and the signed-in user, or no user.
   * Nothing else in the store changes.
   */
  lemma SearchLogsAcceptedQueries(s: Store, auth: Option<nat>, params: map<string, string>, now: Timestamp)
    ensures var r := SearchView(s, auth, params, now).store;
            && r == s.(searchLogs := r.searchLogs)
            && s.searchLogs <= r.searchLogs
            && |r.searchLogs| == |s.searchLogs| + (if Forms.ValidateSearch(params).Some? then 1 else 0)
            && (Forms.ValidateSearch(params).Some? ==>
                  r.searchLogs[|s.searchLogs|] ==
                    SearchLog(Forms.ValidateSearch(params).value, now, AuthorOf(CurrentUser(s, auth))))
  {
    if Forms.ValidateSearch(params).Some? {
      Forms.ValidQueryHasVisibleText(params);
    }
  }

  /** A stored eco-action whose title starts with the query, in any letter case, is found. */
  lemma SearchFindsTitlePrefix(s: Store, auth: Option<nat>, params: map<string, string>, now: Timestamp, a: EcoAction)
    requires a in s.actions
    requires Forms.ValidateSearch(params).Some?
    requires Text.Lower(Forms.ValidateSearch(params).value) <= Text.Lower(a.title)
    ensures a in SearchView(s, auth, params, now).page.actions
  {
    var q := Forms.ValidateSearch(params).value;
    assert Text.OccursAt(Text.Lower(q), Text.Lower(a.title), 0);
    assert ActionMatches(a, q);
    assert a in MatchingActions(s.actions, q);
  }

  /** Searching keeps every integrity constraint (the log row's user is the signed-in user or null). */
  lemma SearchPreservesValid(s: Store, auth: Option<nat>, params: map<string, string>, now: Timestamp)
    requires Valid(s)
    ensures Valid(SearchView(s, auth, params, now).store)
  {
    SearchLogsAcceptedQueries(s, auth, params, now);
    var r := SearchView(s, auth, params, now).store;
    if r != s {
      var row := r.searchLogs[|s.searchLogs|];
      assert r.searchLogs == s.searchLogs + [row];
      assert Resolves(row.user, UserIds(s));
      AppendSearchLogPreservesValid(s, row);
    }
  }

  lemma AppendSearchLogPreservesValid(s: Store, row: SearchLog)
    requires Valid(s) && Resolves(row.user, UserIds(s))
    ensures Valid(s.(searchLogs := s.searchLogs + [row]))
  {
    var r := s.(searchLogs := s.searchLogs + [row]);
    assert UserIds(r) == UserIds(s);
    assert CategoryIds(r) == CategoryIds(s);
  }
}
