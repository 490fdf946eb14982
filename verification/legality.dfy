/**
 * The format predicates of UserService: username, password, e-mail address,
 * personal website and the old-password check used by a password change.
 *
 * Each regular-expression rule of the source is written twice: as a
 * recogniser that scans the string once with Span (what the service uses),
 * and as a "shape" that states the language of the regular expression with
 * explicit split positions. The lemmas prove the two agree on every string.
 */
module Legality {
  import opened CharClasses

  const MinPasswordLength := 6
  const MaxPasswordLength := 16
  const MaxEmailLength := 64
  const MaxWebsiteLength := 64

  // ---------------------------------------------------------------------------
  // Recognisers
  // ---------------------------------------------------------------------------

  /** ^[A-Za-z][A-Za-z0-9_]{5,15}$ */
  predicate IsUsernameLegal(username: string) {
    && |username| > 0
    && In(Letter, username[0])
    && var n := Span(username[1..], Word);
    && n == |username| - 1
    && 5 <= n <= 15
  }

  /** Six to sixteen characters of any kind. */
  predicate IsPasswordLegal(password: string) {
    MinPasswordLength <= |password| <= MaxPasswordLength
  }

  /** label "." tail, with label in labelClass (which excludes '.') and tail in tailClass, both non-empty. */
  predicate MatchesDotted(h: string, labelClass: Class, tailClass: Class) {
    var j := Span(h, labelClass);
    && 0 < j
    && j + 1 < |h|
    && h[j] == '.'
    && AllIn(h[j + 1..], tailClass)
  }

  /** ^[A-Za-z0-9._-]+@[A-Za-z0-9_-]+\.[A-Za-z0-9._-]+$ */
  predicate MatchesEmailPattern(email: string) {
    var i := Span(email, EmailLocal);
    && 0 < i < |email|
    && email[i] == '@'
    && MatchesDotted(email[i + 1..], EmailLabel, EmailLocal)
  }

  predicate IsEmailLegal(email: string) {
    |email| <= MaxEmailLength && MatchesEmailPattern(email)
  }

  /** Length of the "http://" or "https://" scheme prefix of w, or 0 when it has neither. */
  function SchemeLength(w: string): (n: nat)
    ensures n == 0 || n == 7 || n == 8
    ensures n == 7 <==> "http://" <= w
    ensures n == 8 <==> "https://" <= w
  {
    if "http://" <= w then assert w[4] == ':'; 7 else if "https://" <= w then 8 else 0
  }

  /** ^(http|https)://[A-Za-z0-9-]+\.[A-Za-z0-9_.]+$ */
  predicate MatchesWebsitePattern(website: string) {
    var p := SchemeLength(website);
    p > 0 && MatchesDotted(website[p..], HostLabel, HostTail)
  }

  /** The empty website is allowed; otherwise at most 64 characters of the URL pattern. */
  predicate IsWebsiteLegal(website: string) {
    |website| == 0 || (|website| <= MaxWebsiteLength && MatchesWebsitePattern(website))
  }

  /**
   * The submitted old password is correct when it is empty (the caller is not
   * changing the password) or when its digest equals the stored digest.
   */
  function IsOldPasswordCorrect(digest: string -> string, storedDigest: string, submitted: string): (r: bool)
    ensures submitted == "" ==> r
    ensures submitted != "" ==> (r <==> digest(submitted) == storedDigest)
  {
    if submitted == "" then true else storedDigest == digest(submitted)
  }

  // ---------------------------------------------------------------------------
  // The languages of the regular expressions
  // ---------------------------------------------------------------------------

  ghost predicate UsernameShape(u: string) {
    && 6 <= |u| <= 16
    && In(Letter, u[0])
    && forall i :: 1 <= i < |u| ==> In(Word, u[i])
  }

  /** h = label + "." + tail for some split with both parts non-empty. */
  ghost predicate DottedShape(h: string, labelClass: Class, tailClass: Class) {
    exists j ::
      && 0 < j
      && j + 1 < |h|
      && h[j] == '.'
      && AllIn(h[..j], labelClass)
      && AllIn(h[j + 1..], tailClass)
  }

  /** e = local + "@" + label + "." + tail. */
  ghost predicate EmailShape(e: string) {
    exists i ::
      && 0 < i < |e|
      && e[i] == '@'
      && AllIn(e[..i], EmailLocal)
      && DottedShape(e[i + 1..], EmailLabel, EmailLocal)
  }

  /** w = ("http" | "https") + "://" + label + "." + tail. */
  ghost predicate WebsiteShape(w: string) {
    || ("http://" <= w && DottedShape(w[7..], HostLabel, HostTail))
    || ("https://" <= w && DottedShape(w[8..], HostLabel, HostTail))
  }

  // ---------------------------------------------------------------------------
  // Recogniser and language agree
  // ---------------------------------------------------------------------------

  lemma UsernameLegalIff(u: string)
    ensures IsUsernameLegal(u) <==> UsernameShape(u)
  {
    if |u| > 0 {
      var t := u[1..];
      SpanCoversAll(t, Word);
      assert forall i :: 1 <= i < |u| ==> t[i - 1] == u[i];
      if UsernameShape(u) {
        assert forall i :: 0 <= i < |t| ==> t[i] == u[i + 1];
        assert AllIn(t, Word);
      }
    }
  }

  lemma {:induction false} DottedIff(h: string, labelClass: Class, tailClass: Class)
    requires !In(labelClass, '.')
    ensures MatchesDotted(h, labelClass, tailClass) <==> DottedShape(h, labelClass, tailClass)
  {
    var j := Span(h, labelClass);
    if MatchesDotted(h, labelClass, tailClass) {
      AllInPrefix(h, labelClass, j);
      assert 0 < j && j + 1 < |h| && h[j] == '.' && AllIn(h[..j], labelClass) && AllIn(h[j + 1..], tailClass);
    }
    if DottedShape(h, labelClass, tailClass) {
      var j' :| 0 < j' && j' + 1 < |h| && h[j'] == '.' && AllIn(h[..j'], labelClass) && AllIn(h[j' + 1..], tailClass);
      AllInPrefix(h, labelClass, j');
      SpanIs(h, labelClass, j');
    }
  }

  /** isEmailLegal holds exactly for addresses of at most 64 characters in the language of the e-mail pattern. */
  lemma EmailLegalIff(e: string)
    ensures IsEmailLegal(e) <==> |e| <= MaxEmailLength && EmailShape(e)
  {
    if MatchesEmailPattern(e) {
      EmailPatternHasShape(e);
    }
    if EmailShape(e) {
      EmailShapeMatchesPattern(e);
    }
  }

  /** The split the recogniser finds is a witness of the shape. */
  lemma EmailPatternHasShape(e: string)
    requires MatchesEmailPattern(e)
    ensures EmailShape(e)
  {
    var i := Span(e, EmailLocal);
    DottedIff(e[i + 1..], EmailLabel, EmailLocal);
    AllInPrefix(e, EmailLocal, i);
    assert 0 < i < |e| && e[i] == '@' && AllIn(e[..i], EmailLocal);
  }

  /** Any split of the shape is the one the recogniser finds, since the local part cannot contain '@'. */
  lemma EmailShapeMatchesPattern(e: string)
    requires EmailShape(e)
    ensures MatchesEmailPattern(e)
  {
    var i :| 0 < i < |e| && e[i] == '@' && AllIn(e[..i], EmailLocal)
           && DottedShape(e[i + 1..], EmailLabel, EmailLocal);
    AllInPrefix(e, EmailLocal, i);
    SpanIs(e, EmailLocal, i);
    DottedIff(e[i + 1..], EmailLabel, EmailLocal);
  }

  /** isWebsiteLegal holds exactly for "" and for URLs of at most 64 characters in the language of the website pattern. */
  lemma WebsiteLegalIff(w: string)
    ensures IsWebsiteLegal(w) <==> w == "" || (|w| <= MaxWebsiteLength && WebsiteShape(w))
  {
    var p := SchemeLength(w);
    if p == 7 {
      assert !("https://" <= w) by { assert w[4] == ':'; }
      DottedIff(w[7..], HostLabel, HostTail);
    } else if p == 8 {
      DottedIff(w[8..], HostLabel, HostTail);
    }
  }

  // ---------------------------------------------------------------------------
  // Boundaries and examples
  // ---------------------------------------------------------------------------

  /** Usernames of exactly 6 and exactly 16 legal characters pass. */
  lemma UsernameLengthsAccepted()
    ensures IsUsernameLegal("abcdef")
    ensures IsUsernameLegal("a234567890123456")
  {
    var u := "abcdef";
    assert forall i :: 1 <= i < |u| ==> IsAsciiLetter(u[i]);
    UsernameLegalIff(u);
    var v := "a234567890123456";
    assert forall i :: 1 <= i < |v| ==> IsAsciiDigit(v[i]);
    UsernameLegalIff(v);
  }

  /** Usernames of 5 and 17 characters fail, and so does one that starts with a digit. */
  lemma UsernameLengthsRejected()
    ensures !IsUsernameLegal("abcde")
    ensures !IsUsernameLegal("a2345678901234567")
    ensures !IsUsernameLegal("ab1")
    ensures !IsUsernameLegal("1abcdef")
  {
    UsernameLegalIff("abcde");
    UsernameLegalIff("a2345678901234567");
    UsernameLegalIff("ab1");
    UsernameLegalIff("1abcdef");
  }

  /** Passwords of 6 and 16 characters pass; 5 and 17 fail; the length alone decides. */
  lemma PasswordLengthBoundaries(p: string)
    ensures IsPasswordLegal(p) <==> 6 <= |p| <= 16
    ensures !IsPasswordLegal("abcde") && IsPasswordLegal("abcdef")
    ensures IsPasswordLegal("abcdefghijklmnop") && !IsPasswordLegal("abcdefghijklmnopq")
    ensures !IsPasswordLegal("")
  {
  }

  /** "a@b" has no dotted domain and fails; "user@example.com" passes. */
  lemma EmailExamples()
    ensures !IsEmailLegal("a@b")
    ensures IsEmailLegal("user@example.com")
  {
    var e := "user@example.com";
    var h := e[5..];
    assert h == "example.com";
    assert AllIn(e[..4], EmailLocal) by { assert e[..4] == "user"; }
    assert AllIn(h[..7], EmailLabel) by { assert h[..7] == "example"; }
    assert AllIn(h[8..], EmailLocal) by { assert h[8..] == "com"; }
    assert DottedShape(h, EmailLabel, EmailLocal) by { assert h[7] == '.'; }
    assert EmailShape(e) by { assert e[4] == '@'; }
    EmailLegalIff(e);
    EmailLegalIff("a@b");
  }

  /** "" passes, and so does a dotted https host. */
  lemma WebsitesAccepted()
    ensures IsWebsiteLegal("")
    ensures IsWebsiteLegal("https://a.b")
  {
    var w := "https://a.b";
    var h := w[8..];
    assert h == "a.b";
    assert AllIn(h[..1], HostLabel) by { assert h[..1] == "a"; }
    assert AllIn(h[2..], HostTail) by { assert h[2..] == "b"; }
    assert DottedShape(h, HostLabel, HostTail) by { assert h[1] == '.'; }
    assert "https://" <= w;
    WebsiteLegalIff(w);
  }

  /** A bare scheme, a host without a dot and another scheme all fail. */
  lemma WebsitesRejected()
    ensures !IsWebsiteLegal("https://")
    ensures !IsWebsiteLegal("http://localhost")
    ensures !IsWebsiteLegal("ftp://a.b")
  {
    WebsiteLegalIff("https://");
    WebsiteLegalIff("http://localhost");
    WebsiteLegalIff("ftp://a.b");
  }

}
