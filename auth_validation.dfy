/** The guards of the register and login routes
    (backend/dist/middleware/validation.js): an e-mail pattern, a password
    length, and the order in which the register and login bodies are
    checked. */
module AuthValidation {
  import opened Js

  /** A character of the class `[^\s@]`. */
  predicate IsAtom(c: char)
  {
    !IsSpace(c) && c != '@'
  }

  predicate AllAtoms(s: string)
  {
    forall k :: 0 <= k < |s| ==> IsAtom(s[k])
  }

  /** `s` matches `^[^\s@]+@[^\s@]+\.[^\s@]+$` with its `@` at `at` and the
      character matched by `\.` at `dot`. */
  predicate EmailMatchAt(s: string, at: int, dot: int)
  {
    && 0 < at && at + 1 < dot && dot + 1 < |s|
    && s[at] == '@' && s[dot] == '.'
    && AllAtoms(s[..at]) && AllAtoms(s[at + 1..dot]) && AllAtoms(s[dot + 1..])
  }

  /** The regular expression of `validateEmail` matches `s`. */
  ghost predicate MatchesEmailPattern(s: string)
  {
    exists at, dot :: EmailMatchAt(s, at, dot)
  }

  /** The position of the first `c` in `s`, or `|s|` when there is none. */
  function IndexOf(s: string, c: char): (i: nat)
    ensures i <= |s|
    ensures i < |s| ==> s[i] == c
    ensures forall k :: 0 <= k < i ==> s[k] != c
  {
    if s == [] then 0
    else if s[0] == c then 0
    else 1 + IndexOf(s[1..], c)
  }

  /** `validateEmail`: one `@` with a non-empty local part before it, and a
      domain after it with a `.` that is neither its first nor its last
      character; no white space anywhere. */
  function ValidateEmail(email: string): (ok: bool)
    ensures ok <==> MatchesEmailPattern(email)
  {
    var at := IndexOf(email, '@');
    var ok := at < |email| && at > 0 && AllAtoms(email[..at])
      && var domain := email[at + 1..];
         AllAtoms(domain) && |domain| >= 3 && '.' in domain[1..|domain| - 1];
    assert ok ==> MatchesEmailPattern(email) by {
      if ok {
        var domain := email[at + 1..];
        var k :| 0 <= k < |domain| - 2 && domain[1..|domain| - 1][k] == '.';
        var dot := at + 2 + k;
        assert email[at + 1..dot] == domain[..k + 1];
        assert email[dot + 1..] == domain[k + 2..];
        assert EmailMatchAt(email, at, dot);
      }
    }
    assert MatchesEmailPattern(email) ==> ok by {
      if MatchesEmailPattern(email) {
        var a, d :| EmailMatchAt(email, a, d);
        assert IsAtom('.');
        AtIsUnique(email, a, d, if at < |email| then at else a);
        var domain := email[at + 1..];
        assert domain == email[at + 1..d] + ['.'] + email[d + 1..];
        assert domain[1..|domain| - 1][d - at - 2] == '.';
      }
    }
    ok
  }

  /** `validatePassword`. */
  function ValidatePassword(password: string): (ok: bool)
    ensures ok <==> |password| >= 6
  {
    |password| >= 6
  }

  /** The checks of the two guards; `MissingFields` carries which guard's
      message applies. */
  datatype AuthError = MissingRegisterFields | MissingLoginFields | InvalidEmail | ShortPassword | ShortName
  {
    function Message(): string
    {
      match this
      case MissingRegisterFields => "Email, password, and name are required"
      case MissingLoginFields => "Email and password are required"
      case InvalidEmail => "Please provide a valid email address"
      case ShortPassword => "Password must be at least 6 characters long"
      case ShortName => "Name must be at least 2 characters long"
    }
  }

  /** A string field of a request body: `Some` when present. */
  predicate Given(f: Option<string>)
  {
    f.Some? && f.value != ""
  }

  /** `validateRegister`. */
  function ValidateRegister(email: Option<string>, password: Option<string>, name: Option<string>): (v: Verdict<AuthError>)
    ensures v == Next <==>
              && Given(email) && Given(password) && Given(name)
              && MatchesEmailPattern(email.value) && |password.value| >= 6 && |Trim(name.value)| >= 2
    ensures v == Reject(MissingRegisterFields) <==> !(Given(email) && Given(password) && Given(name))
    ensures v == Reject(InvalidEmail) <==>
              Given(email) && Given(password) && Given(name) && !MatchesEmailPattern(email.value)
    ensures v == Reject(ShortPassword) <==>
              && Given(email) && Given(password) && Given(name)
              && MatchesEmailPattern(email.value) && |password.value| < 6
    ensures v == Reject(ShortName) <==>
              && Given(email) && Given(password) && Given(name)
              && MatchesEmailPattern(email.value) && |password.value| >= 6 && |Trim(name.value)| < 2
  {
    if !Given(email) || !Given(password) || !Given(name) then
      Reject(MissingRegisterFields)
    else if !ValidateEmail(email.value) then
      Reject(InvalidEmail)
    else if !ValidatePassword(password.value) then
      Reject(ShortPassword)
    else if |Trim(name.value)| < 2 then
      Reject(ShortName)
    else
      Next
  }

  /** `validateLogin`: it asks for a valid e-mail and a password, and does
      not check the password's length. */
  function ValidateLogin(email: Option<string>, password: Option<string>): (v: Verdict<AuthError>)
    ensures v == Next <==> Given(email) && Given(password) && MatchesEmailPattern(email.value)
    ensures v == Reject(MissingLoginFields) <==> !(Given(email) && Given(password))
    ensures v == Reject(InvalidEmail) <==> Given(email) && Given(password) && !MatchesEmailPattern(email.value)
  {
    if !Given(email) || !Given(password) then
      Reject(MissingLoginFields)
    else if !ValidateEmail(email.value) then
      Reject(InvalidEmail)
    else
      Next
  }

  /** A password too short to register with still passes the login guard. */
  lemma LoginSkipsPasswordLength(email: string, password: string, name: string)
    requires MatchesEmailPattern(email) && 0 < |password| < 6 && name != ""
    ensures ValidateLogin(Some(email), Some(password)) == Next
    ensures ValidateRegister(Some(email), Some(password), Some(name)) == Reject(ShortPassword)
  {
    var a, d :| EmailMatchAt(email, a, d);
  }

  /** A matched address holds no `@` but the one the pattern names. */
  lemma AtIsUnique(email: string, at: int, dot: int, i: int)
    requires EmailMatchAt(email, at, dot) && 0 <= i < |email| && email[i] == '@'
    ensures i == at
  {
  }

  /** An address with two `@` never passes. */
  lemma EmailRejectsTwoAts(email: string, i: int, j: int)
    requires 0 <= i < j < |email| && email[i] == '@' && email[j] == '@'
    ensures !ValidateEmail(email)
  {
    if MatchesEmailPattern(email) {
      var a, d :| EmailMatchAt(email, a, d);
      AtIsUnique(email, a, d, i);
      AtIsUnique(email, a, d, j);
    }
  }
}
