/**
 * Visit and activity tracking of ecoapp/views.py: the client address taken
 * from the request headers, the per-request `VisitTracker` row written for a
 * signed-in user, and the "user history" page with its cookie visit counter.
 */
module Tracking {
  import opened Options
  import opened Seqs
  import Text
  import opened Models
  import opened Http

  /** The request headers the tracking code reads (`request.META`). */
  datatype Meta = Meta(forwardedFor: Option<string>, remoteAddr: Option<string>, userAgent: Option<string>)

  /**
   * `get_client_ip`: the first entry of a non-empty `X-Forwarded-For` header,
   * untrimmed; otherwise the address of the direct connection, which may be absent.
   */
  function ClientIp(meta: Meta): (r: Option<string>)
    ensures meta.forwardedFor.Some? && meta.forwardedFor.value != "" ==>
              && r.Some?
              && r.value <= meta.forwardedFor.value
              && ',' !in r.value
              && (|r.value| < |meta.forwardedFor.value| ==> meta.forwardedFor.value[|r.value|] == ',')
    ensures !(meta.forwardedFor.Some? && meta.forwardedFor.value != "") ==> r == meta.remoteAddr
  {
    match meta.forwardedFor
    case Some(header) =>
      if header != "" then Some(Text.BeforeFirstComma(header)) else meta.remoteAddr
    case None => meta.remoteAddr
  }

  /** Behind a proxy chain `client, proxy1, ...`, the address reported is the client entry exactly. */
  lemma ClientIpIsFirstHop(meta: Meta, client: string, proxies: string)
    requires ',' !in client
    requires meta.forwardedFor == Some(client + [','] + proxies)
    ensures ClientIp(meta) == Some(client)
  {
    Text.BeforeFirstCommaOfList(client, proxies);
  }

  /** Whitespace around the first entry is kept, and an empty first entry is reported as empty. */
  lemma ClientIpDoesNotTrim(remote: Option<string>, agent: Option<string>)
    ensures ClientIp(Meta(Some(" 203.0.113.7, 10.0.0.1"), remote, agent)) == Some(" 203.0.113.7")
    ensures ClientIp(Meta(Some(",10.0.0.1"), remote, agent)) == Some("")
  {
    assert " 203.0.113.7, 10.0.0.1" == " 203.0.113.7" + [','] + " 10.0.0.1";
    assert ",10.0.0.1" == "" + [','] + "10.0.0.1";
    ClientIpIsFirstHop(Meta(Some(" 203.0.113.7, 10.0.0.1"), remote, agent), " 203.0.113.7", " 10.0.0.1");
    ClientIpIsFirstHop(Meta(Some(",10.0.0.1"), remote, agent), "", "10.0.0.1");
  }

  /** Without a usable forwarded-for header the direct connection address is used. */
  lemma ClientIpFallsBack(meta: Meta)
    requires meta.forwardedFor == None || meta.forwardedFor == Some("")
    ensures ClientIp(meta) == meta.remoteAddr
  {
  }

  /** The row `track_visit` inserts for a signed-in user. */
  function VisitRow(user: User, meta: Meta, ip: string, now: Timestamp): VisitTracker {
    VisitTracker(Some(user.id), ip, meta.userAgent.GetOr(""), now)
  }

  /**
   * Whether the address column can take the value: it is NOT NULL, and the
   * database layer stores a missing or empty address as NULL.
   */
  predicate StorableAddress(ip: Option<string>) {
    ip.Some? && ip.value != ""
  }

  /**
   * The `track_visit` middleware. `None` is the database refusing the insert
   * of a signed-in request whose client address is missing or empty.
   */
  function TrackVisit(s: Store, auth: Option<nat>, meta: Meta, now: Timestamp): (r: Option<Store>)
    ensures r.None? <==> CurrentUser(s, auth).Some? && !StorableAddress(ClientIp(meta))
    ensures r.Some? ==> r.value == s.(visits := r.value.visits)
    ensures r.Some? ==> s.visits <= r.value.visits && |r.value.visits| <= |s.visits| + 1
    ensures r.Some? ==> forall v :: v in r.value.visits && v !in s.visits ==> v.ipAddress != ""
  {
    var ip := ClientIp(meta);
    match CurrentUser(s, auth)
    case None => Some(s)
    case Some(user) =>
      if !StorableAddress(ip) then None
      else Some(s.(visits := s.visits + [VisitRow(user, meta, ip.value, now)]))
  }

  /**
   * A signed-in request without a usable address (an empty first forwarded-for
   * entry, an empty or missing direct address) fails the insert.
   */
  lemma BlankAddressRefused(s: Store, auth: Option<nat>, meta: Meta, now: Timestamp)
    requires CurrentUser(s, auth).Some?
    requires ClientIp(meta) == None || ClientIp(meta) == Some("")
    ensures TrackVisit(s, auth, meta, now).None?
  {
  }

  /** The header ",10.0.0.1" names an empty client, so the signed-in request fails whatever the direct address. */
  lemma EmptyFirstHopRefused(s: Store, auth: Option<nat>, remote: Option<string>, agent: Option<string>, now: Timestamp)
    requires CurrentUser(s, auth).Some?
    ensures TrackVisit(s, auth, Meta(Some(",10.0.0.1"), remote, agent), now).None?
  {
    ClientIpDoesNotTrim(remote, agent);
  }

  /** An anonymous request writes nothing. */
  lemma AnonymousVisitNotTracked(s: Store, auth: Option<nat>, meta: Meta, now: Timestamp)
    requires CurrentUser(s, auth).None?
    ensures TrackVisit(s, auth, meta, now) == Some(s)
  {
  }

  /**
   * A signed-in request appends exactly one row, carrying the user, the client
   * address and the user agent (empty when absent), and changes nothing else.
   */
  lemma SignedInVisitTracked(s: Store, auth: Option<nat>, meta: Meta, now: Timestamp)
    requires CurrentUser(s, auth).Some? && ClientIp(meta).Some? && ClientIp(meta).value != ""
    ensures var r := TrackVisit(s, auth, meta, now);
            && r.Some?
            && |r.value.visits| == |s.visits| + 1
            && r.value.visits[..|s.visits|] == s.visits
            && r.value.visits[|s.visits|].user == auth
            && r.value.visits[|s.visits|].ipAddress == ClientIp(meta).value
            && r.value.visits[|s.visits|].userAgent == meta.userAgent.GetOr("")
            && r.value == s.(visits := r.value.visits)
  {
  }

  /** Tracking keeps every integrity constraint. */
  lemma TrackVisitPreservesValid(s: Store, auth: Option<nat>, meta: Meta, now: Timestamp)
    requires Valid(s) && TrackVisit(s, auth, meta, now).Some?
    ensures Valid(TrackVisit(s, auth, meta, now).value)
  {
  }

  // ---------------------------------------------------------------------------
  // user_history_view
  // ---------------------------------------------------------------------------

  /** Dates in non-increasing order (`order_by('-login_date')`). */
  predicate Descending(s: seq<Date>) {
    forall i, j :: 0 <= i < j < |s| ==> s[i] >= s[j]
  }

  /** Insert `x` into a descending sequence. */
  function InsertDescending(x: Date, s: seq<Date>): (r: seq<Date>)
    requires Descending(s)
    ensures Descending(r)
    ensures multiset(r) == multiset(s) + multiset{x}
    decreases |s|
  {
    if |s| == 0 || x >= s[0] then
      ConsDescending(x, s);
      [x] + s
    else
      assert s == [s[0]] + s[1..];
      var rest := InsertDescending(x, s[1..]);
      BoundedByHead(s, x, rest);
      ConsDescending(s[0], rest);
      [s[0]] + rest
  }

  /** Putting an upper bound in front of a descending sequence keeps it descending. */
  lemma ConsDescending(h: Date, t: seq<Date>)
    requires Descending(t)
    requires forall y :: y in t ==> y <= h
    ensures Descending([h] + t)
  {
    var r := [h] + t;
    forall i, j | 0 <= i < j < |r| ensures r[i] >= r[j] {
      assert r[j] == t[j - 1] && r[j] in t;
      if i > 0 {
        assert r[i] == t[i - 1];
      }
    }
  }

  /** The head of a descending sequence bounds everything a smaller value is inserted among. */
  lemma BoundedByHead(s: seq<Date>, x: Date, rest: seq<Date>)
    requires Descending(s) && |s| > 0 && x < s[0]
    requires multiset(rest) == multiset(s[1..]) + multiset{x}
    ensures forall y :: y in rest ==> y <= s[0]
  {
    forall y | y in rest ensures y <= s[0] {
      assert y in multiset(rest);
      if y != x {
        assert y in s[1..];
        var k :| 0 <= k < |s[1..]| && s[1..][k] == y;
        assert s[k + 1] == y;
      }
    }
  }

  /** The dates sorted newest first, as a permutation of the input. */
  function SortDescending(s: seq<Date>): (r: seq<Date>)
    ensures Descending(r)
    ensures multiset(r) == multiset(s)
    decreases |s|
  {
    if |s| == 0 then []
    else
      assert s == [s[0]] + s[1..];
      InsertDescending(s[0], SortDescending(s[1..]))
  }

  /** Two equal dates in a sorted list would be a date counted twice. */
  lemma SortedWithoutRepeatsIsStrict(r: seq<Date>)
    requires Descending(r)
    requires forall x :: multiset(r)[x] <= 1
    ensures forall i, j :: 0 <= i < j < |r| ==> r[i] > r[j]
  {
    forall i, j | 0 <= i < j < |r| ensures r[i] > r[j] {
      RepeatCountsTwiceIf(r, i, j);
    }
  }

  lemma RepeatCountsTwiceIf(r: seq<Date>, i: nat, j: nat)
    requires i < j < |r|
    ensures r[i] == r[j] ==> multiset(r)[r[i]] >= 2
  {
    if r[i] == r[j] {
      RepeatCountsTwice(r, i, j);
    }
  }

  /** `LoginActivity.objects.filter(user=user)`. */
  function UserLogins(logins: seq<LoginActivity>, user: Pk): seq<LoginActivity> {
    Filter(logins, (l: LoginActivity) => l.user == user)
  }

  function DatesOf(rows: seq<LoginActivity>): (r: seq<Date>)
    ensures |r| == |rows|
    ensures forall i :: 0 <= i < |rows| ==> r[i] == rows[i].loginDate
  {
    seq(|rows|, i requires 0 <= i < |rows| => rows[i].loginDate)
  }

  datatype CookieJar = CookieJar(visitCount: Option<int>, lastVisit: Option<string>)

  datatype HistoryPage = HistoryPage(
    totalLogins: nat, loginDates: seq<Date>, visitCount: int, lastVisit: string,
    currentTime: Timestamp, firstVisit: bool)

  /** The page, the cookies written back, and their lifetime in seconds. */
  datatype HistoryResponse =
    | LoginRedirect
    | HistoryRendered(page: HistoryPage, cookies: CookieJar, maxAge: nat)

  /** Thirty days, in seconds. */
  const CookieMaxAge: nat := 60 * 60 * 24 * 30

  const FirstVisitLabel: string := "First Visit"

  /**
   * `user_history_view` (behind `login_required`). The incoming `visit_count`
   * cookie is given already converted by `int()`; `now` is the formatted current time.
   */
  function UserHistoryView(s: Store, auth: Option<nat>, cookies: CookieJar, now: Timestamp): (r: HistoryResponse)
    ensures r.LoginRedirect? <==> CurrentUser(s, auth).None?
    ensures r.HistoryRendered? ==>
              && r.maxAge == CookieMaxAge
              && Descending(r.page.loginDates)
              && r.page.totalLogins == |r.page.loginDates|
              && r.page.currentTime == now
              && r.cookies == CookieJar(Some(r.page.visitCount), Some(now))
  {
    match CurrentUser(s, auth)
    case None => LoginRedirect
    case Some(user) =>
      var rows := UserLogins(s.logins, user.id);
      var v := CountVisit(cookies, now);
      var dates := SortDescending(DatesOf(rows));
      assert |dates| == |multiset(dates)| == |multiset(DatesOf(rows))| == |rows|;
      var page := HistoryPage(|rows|, dates, v.count, v.lastVisit, now, v.firstVisit);
      HistoryRendered(page, v.cookies, CookieMaxAge)
  }

  /** The cookie-driven part of the history page. */
  datatype Visit = Visit(count: int, lastVisit: string, firstVisit: bool, cookies: CookieJar)

  /**
   * The visit counter: the cookie value plus one, a missing cookie counting as
   * zero; the previous visit time defaults to "First Visit"; both cookies are
   * rewritten with the new count and the current time.
   */
  function CountVisit(cookies: CookieJar, now: Timestamp): (v: Visit)
    ensures v.count == cookies.visitCount.GetOr(0) + 1
    ensures v.firstVisit <==> cookies.visitCount.None? || cookies.visitCount == Some(0)
    ensures v.lastVisit == if cookies.lastVisit.Some? then cookies.lastVisit.value else FirstVisitLabel
    ensures v.cookies == CookieJar(Some(v.count), Some(now))
  {
    var count := cookies.visitCount.GetOr(0) + 1;
    Visit(count, cookies.lastVisit.GetOr(FirstVisitLabel), count == 1, CookieJar(Some(count), Some(now)))
  }

  /** An anonymous visitor is sent to the login page. */
  lemma HistoryNeedsLogin(s: Store, auth: Option<nat>, cookies: CookieJar, now: Timestamp)
    requires CurrentUser(s, auth).None?
    ensures UserHistoryView(s, auth, cookies, now) == LoginRedirect
  {
  }

  /**
   * The counter is the cookie plus one (a missing cookie counts as zero), the
   * page is a "first visit" exactly when the cookie was missing or zero, the
   * previous visit time defaults to "First Visit", and both cookies are rewritten for 30 days.
   */
  lemma HistoryCounter(s: Store, auth: Option<nat>, cookies: CookieJar, now: Timestamp)
    requires CurrentUser(s, auth).Some?
    ensures var r := UserHistoryView(s, auth, cookies, now);
            && r.HistoryRendered?
            && r.page.visitCount == cookies.visitCount.GetOr(0) + 1
            && (r.page.firstVisit <==> cookies.visitCount.None? || cookies.visitCount == Some(0))
            && (cookies.lastVisit.None? ==> r.page.lastVisit == "First Visit")
            && (cookies.lastVisit.Some? ==> r.page.lastVisit == cookies.lastVisit.value)
            && r.cookies == CookieJar(Some(r.page.visitCount), Some(now))
            && r.maxAge == 2592000
  {
  }

  /** A browser returning with the cookies it was given sees the count go up by one and its previous visit time. */
  lemma HistoryRevisit(s: Store, auth: Option<nat>, cookies: CookieJar, first: Timestamp, second: Timestamp)
    requires CurrentUser(s, auth).Some?
    requires cookies.visitCount.GetOr(0) >= 0
    ensures var r1 := UserHistoryView(s, auth, cookies, first);
            var r2 := UserHistoryView(s, auth, r1.cookies, second);
            && r2.page.visitCount == r1.page.visitCount + 1
            && r2.page.lastVisit == first
            && !r2.page.firstVisit
  {
  }

  /** The cookies a browser holds after `n` visits to the history page, starting from `jar`. */
  function CookiesAfter(jar: CookieJar, n: nat, now: Timestamp): CookieJar
    decreases n
  {
    if n == 0 then jar else CountVisit(CookiesAfter(jar, n - 1, now), now).cookies
  }

  /** The history page hands the browser exactly the cookies the counter computes. */
  lemma HistoryWritesCounterCookies(s: Store, auth: Option<nat>, cookies: CookieJar, now: Timestamp)
    requires CurrentUser(s, auth).Some?
    ensures var r := UserHistoryView(s, auth, cookies, now);
            && r.HistoryRendered?
            && r.cookies == CookieJar(Some(cookies.visitCount.GetOr(0) + 1), Some(now))
            && r.page.visitCount == cookies.visitCount.GetOr(0) + 1
            && (r.page.firstVisit <==> r.page.visitCount == 1)
  {
  }

  /** From a fresh browser, the n-th view shows count n, and only the first one is a first visit. */
  lemma {:induction false} HistoryCountsVisits(s: Store, auth: Option<nat>, n: nat, now: Timestamp)
    requires CurrentUser(s, auth).Some?
    ensures var jar := CookiesAfter(CookieJar(None, None), n, now);
            var page := UserHistoryView(s, auth, jar, now).page;
            && page.visitCount == n + 1
            && (page.firstVisit <==> n == 0)
  {
    FreshBrowserCount(n, now);
    HistoryWritesCounterCookies(s, auth, CookiesAfter(CookieJar(None, None), n, now), now);
  }

  lemma {:induction false} FreshBrowserCount(n: nat, now: Timestamp)
    ensures n > 0 ==> CookiesAfter(CookieJar(None, None), n, now) == CookieJar(Some(n), Some(now))
    ensures n == 0 ==> CookiesAfter(CookieJar(None, None), n, now) == CookieJar(None, None)
    decreases n
  {
    if n > 0 {
      FreshBrowserCount(n - 1, now);
    }
  }

  /** The login summary: one date per login row of the user, newest first, and the count of those rows. */
  lemma HistoryLoginSummary(s: Store, auth: Option<nat>, cookies: CookieJar, now: Timestamp)
    requires CurrentUser(s, auth).Some?
    ensures var user := CurrentUser(s, auth).value;
            var page := UserHistoryView(s, auth, cookies, now).page;
            && page.totalLogins == |page.loginDates|
            && page.totalLogins == |UserLogins(s.logins, user.id)|
            && Descending(page.loginDates)
            && (forall d :: d in page.loginDates <==> LoginActivity(user.id, d) in s.logins)
  {
    var user := CurrentUser(s, auth).value;
    var rows := UserLogins(s.logins, user.id);
    var dates := DatesOf(rows);
    var sorted := SortDescending(dates);
    assert |sorted| == |multiset(sorted)| == |multiset(dates)| == |dates|;
    forall d ensures d in sorted <==> LoginActivity(user.id, d) in s.logins {
      assert d in sorted <==> d in multiset(dates);
      if LoginActivity(user.id, d) in rows {
        var i :| 0 <= i < |rows| && rows[i] == LoginActivity(user.id, d);
        assert dates[i] == d;
      }
      if d in dates {
        var i :| 0 <= i < |dates| && dates[i] == d;
        assert rows[i] in rows;
      }
    }
  }

  /** With one row per (user, day), the dates are strictly decreasing: no day is listed twice. */
  lemma HistoryDatesStrictlyDescending(s: Store, auth: Option<nat>, cookies: CookieJar, now: Timestamp)
    requires CurrentUser(s, auth).Some?
    requires Distinct(s.logins, LoginKey)
    ensures var dates := UserHistoryView(s, auth, cookies, now).page.loginDates;
            forall i, j :: 0 <= i < j < |dates| ==> dates[i] > dates[j]
  {
    var user := CurrentUser(s, auth).value;
    var rows := UserLogins(s.logins, user.id);
    FilterKeepsDistinct(s.logins, (l: LoginActivity) => l.user == user.id, LoginKey);
    var dates := DatesOf(rows);
    forall i, j | 0 <= i < j < |dates| ensures dates[i] != dates[j] {
      assert rows[i] in rows && rows[j] in rows;
      assert LoginKey(rows[i]) != LoginKey(rows[j]);
    }
    forall x ensures multiset(dates)[x] <= 1 {
      DistinctCountsAtMostOne(dates, x);
    }
    SortedWithoutRepeatsIsStrict(SortDescending(dates));
  }
}
