/** `AuthManager` (services/auth.py): a fixed credential table and identity session ids. */
module Auth {

  /** The manager is its credential table, built once and only read afterwards. */
  datatype AuthManager = AuthManager(userCredentials: map<string, string>) {

    /** `authenticate_user`: the pair is one of the table's entries. */
    function AuthenticateUser(username: string, password: string): (ok: bool)
      ensures ok <==> (username, password) in userCredentials.Items
    {
      username in userCredentials && userCredentials[username] == password
    }

    /** `get_user_session_id`: the session is identified by the user name itself. */
    function GetUserSessionId(username: string): (id: string)
      ensures id == username
    {
      username
    }
  }

  /** `AuthManager()`: the two demonstration accounts. */
  function NewAuthManager(): (a: AuthManager)
    ensures a.userCredentials.Keys == {"alice", "bob"}
    ensures a.userCredentials["alice"] == "password123"
    ensures a.userCredentials["bob"] == "secure456"
  {
    AuthManager(map["alice" := "password123", "bob" := "secure456"])
  }

  /** The membership test guards the lookup: an unknown user is refused, whatever the password. */
  lemma UnknownUserRejected(a: AuthManager, username: string, password: string)
    requires username !in a.userCredentials
    ensures !a.AuthenticateUser(username, password)
  {
  }

  /** A known user with any password but the stored one is refused. */
  lemma WrongPasswordRejected(a: AuthManager, username: string, password: string)
    requires username in a.userCredentials && a.userCredentials[username] != password
    ensures !a.AuthenticateUser(username, password)
  {
  }

  /** Each user has at most one accepted password. */
  lemma AcceptedPasswordUnique(a: AuthManager, username: string, p: string, q: string)
    requires a.AuthenticateUser(username, p) && a.AuthenticateUser(username, q)
    ensures p == q
  {
  }

  /** With the built-in table, exactly two (user, password) pairs are accepted. */
  lemma DemoAccountsAccepted(username: string, password: string)
    ensures NewAuthManager().AuthenticateUser(username, password) <==>
              (username == "alice" && password == "password123") ||
              (username == "bob" && password == "secure456")
  {
  }

  /** Distinct users get distinct session ids. */
  lemma SessionIdsDistinct(a: AuthManager, u: string, v: string)
    requires u != v
    ensures a.GetUserSessionId(u) != a.GetUserSessionId(v)
  {
  }
}
