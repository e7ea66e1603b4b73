/**
 * The sign-in screen of `AuthComposeActivity`: the local checks made
 * before credentials are sent, the Login / Register toggle and the
 * decision to skip the screen for a signed-in user. The sign-in calls
 * themselves are outside the model; `Submitted` stands for "the request
 * is sent".
 */
module Auth {
  import opened KotlinStd

  /** The one accepted domain, `@email.com`. */
  const Domain: string := "@email.com"

  /** `[A-Za-z0-9._%+-]`. */
  predicate IsLocalChar(c: char) {
    ('A' <= c <= 'Z') || ('a' <= c <= 'z') || ('0' <= c <= '9') ||
    c == '.' || c == '_' || c == '%' || c == '+' || c == '-'
  }

  predicate AllLocalChars(s: string) {
    forall i :: 0 <= i < |s| ==> IsLocalChar(s[i])
  }

  /** `email.matches("^[A-Za-z0-9._%+-]+@email\\.com$")`: the whole string
      must match, so the domain is the exact suffix. */
  predicate ValidEmail(email: string) {
    |email| > |Domain| &&
    email[|email| - |Domain|..] == Domain &&
    AllLocalChars(email[..|email| - |Domain|])
  }

  /** The accepted addresses are exactly a non-empty run of allowed
      characters followed by the domain. */
  lemma ValidEmailIsLocalPartAtDomain(email: string)
    ensures ValidEmail(email) <==>
      exists local :: |local| > 0 && AllLocalChars(local) && email == local + Domain
  {
    if ValidEmail(email) {
      var local := email[..|email| - |Domain|];
      assert email == local + Domain;
    }
    if exists local :: |local| > 0 && AllLocalChars(local) && email == local + Domain {
      var local :| |local| > 0 && AllLocalChars(local) && email == local + Domain;
      assert email[..|email| - |Domain|] == local;
      assert email[|email| - |Domain|..] == Domain;
    }
  }

  /** An accepted address has exactly one `@`, just before "email.com". */
  lemma ValidEmailHasOneAt(email: string, i: nat)
    requires ValidEmail(email) && i < |email| && email[i] == '@'
    ensures i == |email| - |Domain|
  {
    var n := |email| - |Domain|;
    assert forall k :: 0 <= k < n ==> email[k] == email[..n][k];
    assert forall k :: n < k < |email| ==> email[k] == Domain[k - n];
  }

  /** Two `@`s, or nothing before the `@`, is rejected. */
  lemma MalformedEmailsRejected(email: string)
    ensures (exists i, j :: 0 <= i < j < |email| && email[i] == '@' && email[j] == '@') ==> !ValidEmail(email)
    ensures |email| > 0 && email[0] == '@' ==> !ValidEmail(email)
  {
    if exists i, j :: 0 <= i < j < |email| && email[i] == '@' && email[j] == '@' {
      var i, j :| 0 <= i < j < |email| && email[i] == '@' && email[j] == '@';
      if ValidEmail(email) {
        ValidEmailHasOneAt(email, i);
        ValidEmailHasOneAt(email, j);
      }
    }
    if |email| > 0 && email[0] == '@' && ValidEmail(email) {
      ValidEmailHasOneAt(email, 0);
    }
  }

  /** The outcome of pressing Login or Register. */
  datatype Outcome = EmailRejected | PasswordRequired | PasswordTooShort | Submitted(email: string, password: string)

  /** The shortest password registration accepts. */
  const MinPasswordLength: nat := 6

  /** `loginUser`: the email check first, then a non-empty password. */
  function Login(email: string, password: string): (r: Outcome)
    ensures r.Submitted? <==> ValidEmail(email) && |password| > 0
    ensures !ValidEmail(email) <==> r == EmailRejected
    ensures r.Submitted? ==> r == Submitted(email, password)
    ensures r != PasswordTooShort
  {
    if !ValidEmail(email) then EmailRejected
    else if |password| == 0 then PasswordRequired
    else Submitted(email, password)
  }

  /** `registerUser`: the email check first, then at least six characters. */
  function Register(email: string, password: string): (r: Outcome)
    ensures r.Submitted? <==> ValidEmail(email) && |password| >= MinPasswordLength
    ensures !ValidEmail(email) <==> r == EmailRejected
    ensures r.Submitted? ==> r == Submitted(email, password)
    ensures r != PasswordRequired
  {
    if !ValidEmail(email) then EmailRejected
    else if |password| < MinPasswordLength then PasswordTooShort
    else Submitted(email, password)
  }

  /** Any password that registration accepts, login accepts too. */
  lemma RegisterPasswordsLogIn(email: string, password: string)
    requires Register(email, password).Submitted?
    ensures Login(email, password) == Register(email, password)
  {
  }

  /** The form: mode and the two fields. It opens in login mode, empty. */
  datatype Form = Form(isLogin: bool, email: string, password: string)

  const InitialForm: Form := Form(true, "", "")

  /** The "Register" / "Login" link: switches mode and empties both fields. */
  function Toggle(f: Form): (r: Form)
    ensures r.isLogin != f.isLogin
    ensures r.email == "" && r.password == ""
  {
    Form(!f.isLogin, "", "")
  }

  /** The main button dispatches on the mode. */
  function Press(f: Form): (r: Outcome)
    ensures f.isLogin ==> r == Login(f.email, f.password)
    ensures !f.isLogin ==> r == Register(f.email, f.password)
  {
    if f.isLogin then Login(f.email, f.password) else Register(f.email, f.password)
  }

  lemma ToggleTwice(f: Form)
    ensures Toggle(Toggle(f)) == f.(email := "", password := "")
  {
  }

  /** After a toggle nothing can be submitted until the fields are filled in. */
  lemma ToggledFormIsRejected(f: Form)
    ensures Press(Toggle(f)) == EmailRejected
  {
  }

  /** Where the activity goes on launch. */
  datatype Screen = HomeScreen | AuthScreen(form: Form)

  /** The activity skips to Home when a user is signed in and did not just
      sign out; otherwise it shows the form in its initial state. */
  function Launch(hasCurrentUser: bool, userJustLoggedOut: bool): (r: Screen)
    ensures r == HomeScreen <==> hasCurrentUser && !userJustLoggedOut
    ensures r.AuthScreen? ==> r.form == InitialForm
  {
    if hasCurrentUser && !userJustLoggedOut then HomeScreen else AuthScreen(InitialForm)
  }
}
