/**
 * The string forms (`__str__`) of the rows, and what the application's own
 * test cases expect of them.
 */
module Display {
  import opened Models
  import Text

  /** `EcoAction`, `Upload` and `Event` print as their title, whatever the other fields hold. */
  lemma StrIsTitle(a: EcoAction, u: Upload, e: Event)
    ensures EcoActionStr(a) == a.title && Text.Contains(EcoActionStr(a), a.title)
    ensures UploadStr(u) == u.title && Text.Contains(UploadStr(u), u.title)
    ensures EventStr(e) == e.title && Text.Contains(EventStr(e), e.title)
  {
    ContainsItself(a.title);
    ContainsItself(u.title);
    ContainsItself(e.title);
  }

  lemma ContainsItself(s: string)
    ensures Text.Contains(s, s)
  {
    assert Text.OccursAt(s, s, 0) by {
      assert s[0..|s|] == s;
    }
  }

  /**
   * `Feedback.__str__` as written: the author's username and the submission
   * time, and nothing of the comment.
   */
  function FeedbackStrAsWritten(f: Feedback, username: string): (r: string)
    ensures |r| == |"Feedback by "| + |username| + |" at "| + |f.submittedAt|
    ensures |r| >= 12 && r[..12] == "Feedback by "
  {
    "Feedback by " + username + " at " + f.submittedAt
  }

  /**
   * The test for `Feedback` creates a row with comment "Great app!" by user
   * "feedbackuser" and expects "Great app" in its string form. The string as
   * written cannot contain it: no character of the fixed text or of the
   * username is a capital G, and a printed timestamp has none either.
   */
  lemma FeedbackStrMissesComment(submittedAt: Timestamp)
    requires 'G' !in submittedAt
    ensures var f := Feedback(1, "Great app!", submittedAt);
            !Text.Contains(FeedbackStrAsWritten(f, "feedbackuser"), "Great app")
  {
    var f := Feedback(1, "Great app!", submittedAt);
    var r := FeedbackStrAsWritten(f, "feedbackuser");
    assert 'G' !in r by {
      assert r == "Feedback by feedbackuser at " + submittedAt;
      forall i | 0 <= i < |r| ensures r[i] != 'G' {
        if i >= 28 {
          assert r[i] == submittedAt[i - 28];
        }
      }
    }
    Text.ContainsNeedsFirstChar(r, "Great app");
  }

  /** `Feedback.__str__` as its test expects it: author, time and the comment itself. */
  function FeedbackStr(f: Feedback, username: string): (r: string)
    ensures Text.Contains(r, f.comment)
    ensures |r| >= 12 && r[..12] == "Feedback by "
  {
    var prefix := "Feedback by " + username + " at " + f.submittedAt + ": ";
    assert Text.OccursAt(f.comment, prefix + f.comment, |prefix|) by {
      assert (prefix + f.comment)[|prefix|..|prefix| + |f.comment|] == f.comment;
    }
    prefix + f.comment
  }

  /** With the comment in its string form, the feedback test's expectation holds for every author and time. */
  lemma FeedbackStrShowsComment(username: string, submittedAt: Timestamp)
    ensures Text.Contains(FeedbackStr(Feedback(1, "Great app!", submittedAt), username), "Great app")
  {
    var f := Feedback(1, "Great app!", submittedAt);
    var r := FeedbackStr(f, username);
    var i: nat :| Text.OccursAt(f.comment, r, i);
    assert r[i..i + 10] == "Great app!";
    assert Text.OccursAt("Great app", r, i) by {
      assert r[i..i + 9] == r[i..i + 10][..9];
    }
  }
}
