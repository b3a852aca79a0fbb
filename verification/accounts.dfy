/**
 * The normalisation Django's user model applies to a new user before it is
 * checked for uniqueness and saved: `AbstractBaseUser.normalize_username`
 * (Unicode NFKC on the username, run by `User.clean()`) and
 * `BaseUserManager.normalize_email` (the domain after the last '@' lower-cased,
 * run by `AbstractUser.clean()`).
 */
module Accounts {
  import opened Options
  import Text

  predicate IsAscii(s: string) {
    forall i :: 0 <= i < |s| ==> s[i] as int < 128
  }

  /**
   * The NFKC compatibility mapping of one character, for the mappings this
   * model knows: the fullwidth ASCII forms U+FF01..U+FF5E, the Latin
   * ligatures U+FB00..U+FB06, and the no-break and ideographic spaces. Every
   * other character, ASCII included, is kept.
   */
  function CompatChar(c: char): (r: string)
    ensures |r| >= 1
    ensures c as int < 128 ==> r == [c]
    ensures IsAscii(r) || r == [c]
  {
    var n := c as int;
    if 0xFF01 <= n <= 0xFF5E then [(n - 0xFEE0) as char]
    else if n == 0xA0 || n == 0x3000 then " "
    else if n == 0xFB00 then "ff"
    else if n == 0xFB01 then "fi"
    else if n == 0xFB02 then "fl"
    else if n == 0xFB03 then "ffi"
    else if n == 0xFB04 then "ffl"
    else if n == 0xFB05 || n == 0xFB06 then "st"
    else [c]
  }

  /** `unicodedata.normalize("NFKC", username)`, character by character. */
  function NormalizeUsername(s: string): (r: string)
    ensures |r| >= |s|
    decreases |s|
  {
    if s == [] then [] else CompatChar(s[0]) + NormalizeUsername(s[1..])
  }

  /** Normalising a concatenation normalises each part. */
  lemma {:induction false} NormalizeUsernameAppend(a: string, b: string)
    ensures NormalizeUsername(a + b) == NormalizeUsername(a) + NormalizeUsername(b)
    decreases |a|
  {
    if a != [] {
      assert (a + b)[1..] == a[1..] + b;
      NormalizeUsernameAppend(a[1..], b);
    } else {
      assert a + b == b;
    }
  }

  /** An ASCII username is stored exactly as typed. */
  lemma {:induction false} NormalizeAsciiUsername(s: string)
    requires IsAscii(s)
    ensures NormalizeUsername(s) == s
    decreases |s|
  {
    if s != [] {
      NormalizeAsciiUsername(s[1..]);
      assert s == [s[0]] + s[1..];
    }
  }

  /** NFKC is idempotent: a normalised username normalises to itself. */
  lemma {:induction false} NormalizeUsernameIdempotent(s: string)
    ensures NormalizeUsername(NormalizeUsername(s)) == NormalizeUsername(s)
    decreases |s|
  {
    if s != [] {
      var head := CompatChar(s[0]);
      var tail := NormalizeUsername(s[1..]);
      NormalizeUsernameAppend(head, tail);
      if IsAscii(head) {
        NormalizeAsciiUsername(head);
      } else {
        assert NormalizeUsername(head) == CompatChar(s[0]) + NormalizeUsername([]);
      }
      NormalizeUsernameIdempotent(s[1..]);
    }
  }

  /** The ligature spelling "ﬁona" is stored as "fiona". */
  lemma LigatureUsernameIsPlain()
    ensures NormalizeUsername("\U{FB01}ona") == "fiona"
  {
    NormalizeAsciiUsername("ona");
    assert "\U{FB01}ona"[1..] == "ona";
  }

  /** The position of the last `c` in `s`, if any. */
  function LastIndex(s: string, c: char): (r: Option<nat>)
    ensures r.None? <==> c !in s
    ensures r.Some? ==> r.value < |s| && s[r.value] == c && c !in s[r.value + 1..]
    decreases |s|
  {
    if s == [] then None
    else if s[|s| - 1] == c then Some(|s| - 1)
    else
      var r := LastIndex(s[..|s| - 1], c);
      assert s == s[..|s| - 1] + [s[|s| - 1]];
      if r.Some? then
        assert s[r.value + 1..] == s[..|s| - 1][r.value + 1..] + [s[|s| - 1]];
        r
      else r
  }

  /** The last `c` is at `i` when `s[i]` is `c` and none follows it. */
  lemma LastIndexAt(s: string, c: char, i: nat)
    requires i < |s| && s[i] == c && c !in s[i + 1..]
    ensures LastIndex(s, c) == Some(i)
  {
    assert s[i] in s;
  }

  /**
   * `BaseUserManager.normalize_email`: an address with an '@' is stripped and
   * its domain, the part after the last '@', lower-cased (ASCII folding); an
   * address without one is kept as given.
   */
  function NormalizeEmail(email: string): (r: string)
    ensures '@' !in email ==> r == email
    ensures '@' in email ==> '@' in r
    ensures email != "" ==> r != ""
  {
    var t := Text.Strip(email);
    match LastIndex(t, '@')
    case None => email
    case Some(i) =>
      assert '@' in t;
      t[..i] + "@" + Text.Lower(t[i + 1..])
  }

  /**
   * For an address typed without surrounding blanks, the local part is kept
   * and the domain after the last '@' is lower-cased.
   */
  lemma NormalizeEmailLowersDomain(local: string, domain: string)
    requires '@' !in domain
    requires local == [] || !Text.IsSpace(local[0])
    requires domain == [] || !Text.IsSpace(domain[|domain| - 1])
    ensures NormalizeEmail(local + "@" + domain) == local + "@" + Text.Lower(domain)
  {
    var e := local + "@" + domain;
    var i := |local|;
    assert e[i] == '@' && e[i + 1..] == domain && e[..i] == local;
    assert !Text.IsSpace(e[0]) && !Text.IsSpace(e[|e| - 1]);
    NormalizeEmailAt(e, i);
  }

  lemma NormalizeEmailAt(e: string, i: nat)
    requires e != [] && !Text.IsSpace(e[0]) && !Text.IsSpace(e[|e| - 1])
    requires i < |e| && e[i] == '@' && '@' !in e[i + 1..]
    ensures NormalizeEmail(e) == e[..i] + "@" + Text.Lower(e[i + 1..])
  {
    Text.StripUnpadded(e);
    LastIndexAt(e, '@', i);
  }

  /** "ann@Example.org" is saved as "ann@example.org". */
  lemma MixedCaseDomainIsLowered()
    ensures NormalizeEmail("ann@Example.org") == "ann@example.org"
  {
    ExampleAddressParts();
    NormalizeEmailLowersDomain("ann", "Example.org");
    ExampleDomainLowered();
  }

  lemma ExampleAddressParts()
    ensures "ann@Example.org" == "ann" + "@" + "Example.org"
    ensures "ann@example.org" == "ann" + "@" + "example.org"
    ensures '@' !in "Example.org"
  {
    var domain := "Example.org";
    assert forall k :: 0 <= k < |domain| ==> domain[k] != '@';
  }

  lemma ExampleDomainLowered()
    ensures Text.Lower("Example.org") == "example.org"
  {
    assert Text.Lower("Example.org")[0] == 'e';
  }
}
