/** The e-mail syntax check of the contact-form validator: the regular expression
    `^[^\s@]+@[^\s@]+\.[^\s@]+$`, stated once as the split the expression describes
    (EmailPattern) and once as a direct test (IsEmail), whose contract is that the two agree. */
module Email {
  import opened Wrappers
  import opened Text

  /** A character the class `[^\s@]` accepts. */
  predicate Plain(c: char) {
    !IsWhitespace(c) && c != '@'
  }

  predicate AllPlain(s: string) {
    forall k :: 0 <= k < |s| ==> Plain(s[k])
  }

  /** The first position of `c` in `s`, if any. */
  function IndexOf(s: string, c: char): (r: Option<nat>)
    ensures r.None? <==> c !in s
    ensures r.Some? ==> r.value < |s| && s[r.value] == c && c !in s[..r.value]
  {
    if s == [] then None
    else if s[0] == c then Some(0)
    else match IndexOf(s[1..], c)
      case None => None
      case Some(i) =>
        assert s[..i + 1] == [s[0]] + s[1..][..i];
        Some(i + 1)
  }

  /** The regular expression as a split: a non-empty plain local part, `@`, a non-empty
      plain run, `.`, and a non-empty plain run to the end. The `.` is itself plain, so
      the last two runs together form a domain holding a `.` with a character on each side. */
  ghost function EmailPattern(s: string): (r: bool)
    ensures r ==> 5 <= |s| && '@' in s
  {
    exists at: nat, dot: nat :: SplitsAt(s, at, dot)
  }

  ghost predicate SplitsAt(s: string, at: nat, dot: nat) {
    0 < at && at + 1 < dot && dot + 1 < |s|
    && AllPlain(s[..at]) && s[at] == '@'
    && AllPlain(s[at + 1..dot]) && s[dot] == '.' && AllPlain(s[dot + 1..])
  }

  /** The domain part after the `@`: plain, and holding a `.` that is neither its first
      nor its last character. */
  predicate DottedDomain(d: string) {
    AllPlain(d) && 3 <= |d| && '.' in d[1..|d| - 1]
  }

  /** What the direct test asks of the first `@`, at position `at`: a non-empty plain
      local part before it and a dotted domain after it. */
  predicate FirstAtSplits(s: string, at: nat)
    requires at < |s|
  {
    0 < at && AllPlain(s[..at]) && DottedDomain(s[at + 1..])
  }

  /** The test the validator runs on a trimmed e-mail value; it accepts exactly the strings
      the regular expression matches. */
  function IsEmail(s: string): (r: bool)
    ensures r <==> EmailPattern(s)
  {
    match IndexOf(s, '@')
    case None =>
      NoAtRejected(s);
      false
    case Some(at) =>
      FirstAtDecides(s, at);
      FirstAtSplits(s, at)
  }

  /** A string without `@` does not match the regular expression. */
  lemma NoAtRejected(s: string)
    requires '@' !in s
    ensures !EmailPattern(s)
  {
    forall at: nat, dot: nat | at < |s| ensures !SplitsAt(s, at, dot) {
      assert s[at] in s;
    }
  }

  /** A split at the first `@` that the direct test accepts matches the regular expression. */
  lemma EmailSound(s: string, at: nat)
    requires IndexOf(s, '@') == Some(at) && FirstAtSplits(s, at)
    ensures EmailPattern(s)
  {
    var d := s[at + 1..];
    var inner := d[1..|d| - 1];
    var j :| 0 <= j < |inner| && inner[j] == '.';
    var dot := at + 2 + j;
    assert s[at + 1..dot] == d[..j + 1];
    assert s[dot + 1..] == d[j + 2..];
    assert SplitsAt(s, at, dot);
  }

  /** Every split the regular expression describes puts its `@` first, where the direct
      test accepts it. */
  lemma EmailComplete(s: string, at: nat, dot: nat)
    requires SplitsAt(s, at, dot)
    ensures IndexOf(s, '@') == Some(at) && FirstAtSplits(s, at)
  {
    AtIsFirst(s, at);
    var d := s[at + 1..];
    forall k | 0 <= k < |d| ensures Plain(d[k]) {
      if k < dot - at - 1 {
        assert d[k] == s[at + 1..dot][k];
      } else if k > dot - at - 1 {
        assert d[k] == s[dot + 1..][k - (dot - at)];
      }
    }
    assert d[1..|d| - 1][dot - at - 2] == '.';
  }

  /** With the first `@` at `at`, the regular expression matches exactly when the direct
      test accepts the split there. */
  lemma FirstAtDecides(s: string, at: nat)
    requires IndexOf(s, '@') == Some(at)
    ensures EmailPattern(s) <==> FirstAtSplits(s, at)
  {
    if FirstAtSplits(s, at) {
      EmailSound(s, at);
    }
    if EmailPattern(s) {
      var at': nat, dot: nat :| SplitsAt(s, at', dot);
      EmailComplete(s, at', dot);
    }
  }

  /** An `@` preceded only by plain characters is the first `@`. */
  lemma AtIsFirst(s: string, at: nat)
    requires at < |s| && s[at] == '@' && AllPlain(s[..at])
    ensures IndexOf(s, '@') == Some(at)
  {
  }

  /** A minimal address, `a@b.co`, is accepted. */
  lemma AcceptsSample()
    ensures IsEmail("a@b.co")
  {
    assert SplitsAt("a@b.co", 1, 3);
  }

  /** A string with no `@` at all, such as `not-an-email`, is rejected. */
  lemma RejectsNotAnEmail()
    ensures !IsEmail("not-an-email")
  {
    assert forall k :: 0 <= k < |"not-an-email"| ==> "not-an-email"[k] != '@';
  }

  /** Any white space anywhere rejects the string. */
  lemma RejectsWhitespace(s: string, k: nat)
    requires k < |s| && IsWhitespace(s[k])
    ensures !IsEmail(s) && !EmailPattern(s)
  {
    forall at: nat, dot: nat | 0 < at && at + 1 < dot && dot + 1 < |s|
      ensures !SplitsAt(s, at, dot)
    {
      if k < at {
        assert s[..at][k] == s[k];
      } else if at < k < dot {
        assert s[at + 1..dot][k - at - 1] == s[k];
      } else if dot < k {
        assert s[dot + 1..][k - dot - 1] == s[k];
      }
    }
  }

  /** A second `@` rejects the string. */
  lemma RejectsSecondAt(s: string, i: nat, k: nat)
    requires i < k < |s| && s[i] == '@' && s[k] == '@'
    ensures !IsEmail(s)
  {
    var at := IndexOf(s, '@').value;
    assert s[at + 1..][k - at - 1] == '@';
  }

  /** A domain without a `.` that has a character on each side rejects the string. */
  lemma RejectsUndottedDomain(s: string, at: nat)
    requires at < |s| && s[at] == '@'
    requires forall j :: at + 1 < j < |s| - 1 ==> s[j] != '.'
    ensures !IsEmail(s)
  {
    var first := IndexOf(s, '@').value;
    var d := s[first + 1..];
    if first < at {
      assert d[at - first - 1] == '@';
    } else if 3 <= |d| {
      var inner := d[1..|d| - 1];
      forall j | 0 <= j < |inner| ensures inner[j] != '.' {
        assert inner[j] == s[at + 2 + j];
      }
    }
  }
}
