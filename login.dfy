/** The login page: its session initialisation, the credential check and the form guard. */
module Login {
  import opened Common
  import opened Session

  const AdminUsername := "admin"
  const AdminPassword := "admin"

  /** The one account the check accepts. */
  predicate Accepted(username: string, password: string)
  {
    username == AdminUsername && password == AdminPassword
  }

  /** `logged_in` becomes False only where it is absent. */
  method InitLoginState(s: SessionState)
    modifies s`loggedIn
    ensures s.loggedIn == if old(s.loggedIn).Absent? then Present(false) else old(s.loggedIn)
  {
    if s.loggedIn.Absent? {
      s.loggedIn := Present(false);
    }
  }

  /**
   * `login(username, password)`: True exactly for admin/admin, which marks the session as
   * logged in under that name; a refused attempt leaves the session as it was.
   */
  method Login(s: SessionState, username: string, password: string) returns (ok: bool)
    modifies s`loggedIn, s`username
    ensures ok <==> username == "admin" && password == "admin"
    ensures ok ==> s.loggedIn == Present(true) && s.username == Present(username)
    ensures !ok ==> s.loggedIn == old(s.loggedIn) && s.username == old(s.username)
  {
    if Accepted(username, password) {
      s.loggedIn := Present(true);
      s.username := Present(username);
      return true;
    }
    return false;
  }

  /** What the page shows: the form (and the result of a submission), or a redirect. */
  datatype LoginView = Form(submitted: Option<bool>) | Redirect(page: string)

  /**
   * One run of `login.py` as a script: initialise `logged_in`, then show the form when the
   * user is not logged in (checking the submitted credentials, if any); otherwise switch to
   * `login.py`.
   */
  method LoginScript(s: SessionState, submission: Option<(string, string)>) returns (view: LoginView)
    modifies s`loggedIn, s`username
    ensures view.Form? <==> old(s.loggedIn) != Present(true)
    ensures view.Redirect? ==> view.page == "login.py" && s.loggedIn == Present(true) && s.username == old(s.username)
    ensures view.Form? && submission.None? ==> view.submitted.None? && s.loggedIn == Present(false) && s.username == old(s.username)
    ensures view.Form? && submission.Some? ==> (
      var (email, password) := submission.value;
      && view.submitted == Some(Accepted(email, password))
      && (Accepted(email, password) ==> s.loggedIn == Present(true) && s.username == Present(email))
      && (!Accepted(email, password) ==> s.loggedIn == Present(false) && s.username == old(s.username)))
  {
    InitLoginState(s);
    if s.loggedIn.value {
      return Redirect("login.py");
    }
    if submission.None? {
      return Form(None);
    }
    var (email, password) := submission.value;
    var ok := Login(s, email, password);
    return Form(Some(ok));
  }
}
