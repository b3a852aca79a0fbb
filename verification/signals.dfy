/**
 * The `user_logged_in` receiver of ecoapp/signals.py: every successful login
 * records one `LoginActivity` row per user and calendar day.
 */
module Signals {
  import opened Seqs
  import opened Models

  /** `LoginActivity.objects.get_or_create(user=user, login_date=today)`. */
  function LogLoginActivity(s: Store, user: Pk, today: Date): (r: Store)
    ensures LoginActivity(user, today) in r.logins
    ensures r == s.(logins := r.logins)
    ensures s.logins <= r.logins && |r.logins| <= |s.logins| + 1
  {
    var row := LoginActivity(user, today);
    if row in s.logins then s else s.(logins := s.logins + [row])
  }

  /** A second login by the same user on the same day changes nothing. */
  lemma LoginIdempotent(s: Store, user: Pk, today: Date)
    ensures LogLoginActivity(LogLoginActivity(s, user, today), user, today) == LogLoginActivity(s, user, today)
  {
  }

  /** The first login of a day adds exactly that day's row. */
  lemma FirstLoginOfDayAddsOneRow(s: Store, user: Pk, today: Date)
    requires LoginActivity(user, today) !in s.logins
    ensures LogLoginActivity(s, user, today).logins == s.logins + [LoginActivity(user, today)]
  {
  }

  /** A repeated login of the day adds no row. */
  lemma RepeatLoginAddsNoRow(s: Store, user: Pk, today: Date)
    requires LoginActivity(user, today) in s.logins
    ensures LogLoginActivity(s, user, today) == s
  {
  }

  /** A login never adds, removes or alters another user's rows. */
  lemma LoginLeavesOtherUsers(s: Store, user: Pk, today: Date, other: LoginActivity)
    requires other.user != user
    ensures multiset(LogLoginActivity(s, user, today).logins)[other] == multiset(s.logins)[other]
  {
  }

  /** The one-row-per-(user, day) constraint survives a login. */
  lemma LoginKeepsOneRowPerDay(s: Store, user: Pk, today: Date)
    requires Distinct(s.logins, LoginKey)
    ensures Distinct(LogLoginActivity(s, user, today).logins, LoginKey)
  {
    var row := LoginActivity(user, today);
    if row !in s.logins {
      forall i | 0 <= i < |s.logins| ensures LoginKey(s.logins[i]) != LoginKey(row) {
        assert s.logins[i] in s.logins;
      }
      AppendKeepsDistinct(s.logins, row, LoginKey);
    }
  }

  /** Under the constraint, a (user, day) pair has at most one row. */
  lemma AtMostOneRowPerDay(logins: seq<LoginActivity>, row: LoginActivity)
    requires Distinct(logins, LoginKey)
    ensures multiset(logins)[row] <= 1
  {
    forall i, j | 0 <= i < j < |logins| ensures logins[i] != logins[j] {
      assert LoginKey(logins[i]) != LoginKey(logins[j]);
    }
    DistinctCountsAtMostOne(logins, row);
  }

  /** After a login on a valid store, exactly one row records that user's day. */
  lemma LoginLeavesExactlyOneRow(s: Store, user: Pk, today: Date)
    requires Distinct(s.logins, LoginKey)
    ensures multiset(LogLoginActivity(s, user, today).logins)[LoginActivity(user, today)] == 1
  {
    LoginKeepsOneRowPerDay(s, user, today);
    AtMostOneRowPerDay(LogLoginActivity(s, user, today).logins, LoginActivity(user, today));
  }

  /** Logging in an existing user keeps every integrity constraint. */
  lemma LoginPreservesValid(s: Store, user: Pk, today: Date)
    requires Valid(s) && user in UserIds(s)
    ensures Valid(LogLoginActivity(s, user, today))
  {
    LoginKeepsOneRowPerDay(s, user, today);
  }
}
