/**
 * The admin sign-in gate (src/hooks/useAuth.tsx): the signed-in user, the
 * `loading` flag and the `isAdmin` flag the auth-state callback keeps, and
 * the decision `loginWithGoogle` takes on the result of the sign-in popup.
 * The allow-list is `ADMIN_EMAILS` (module FirebaseConfig).
 */
module Auth {
  import opened Common
  import opened FirebaseConfig

  /** A signed-in account; `email` may be absent. */
  datatype User = User(uid: string, email: Option<string>)

  /**
   * `ADMIN_EMAILS.includes(user.email || '')`: an address is looked up as
   * it is, and a missing address is looked up as ''.
   */
  predicate Allowed(adminEmails: seq<string>, u: User): (b: bool)
    ensures u.email.Some? ==> (b <==> exists i :: 0 <= i < |adminEmails| && adminEmails[i] == u.email.value)
    ensures u.email.None? ==> (b <==> "" in adminEmails)
  {
    u.email.GetOr("") in adminEmails
  }

  /** The `isAdmin` value the callback derives from its user (false with no user). */
  predicate AdminFor(adminEmails: seq<string>, current: Option<User>) {
    current.Some? && Allowed(adminEmails, current.value)
  }

  /** A user with no e-mail address is never admin, since the allow-list has no empty entry. */
  lemma NoEmailNeverAdmin(env: Env, u: User)
    requires u.email.None?
    ensures !AdminFor(AdminEmails(env), Some(u))
  {
    NoEmptyEntry(env);
  }

  /** What the sign-in popup came back with. */
  datatype SignInResult = SignedIn(user: User) | ProviderError(message: string)

  const UnauthorizedNotice: string := "Unauthorized: You do not have admin access."
  const LoginSuccessNotice: string := "Successfully logged in!"
  const LoginFailedNotice: string := "Failed to login"

  class AuthSession {
    const adminEmails: seq<string>
    var user: Option<User>
    var loading: bool
    var isAdmin: bool

    /** `isAdmin` agrees with the current user, and no allow-list entry is empty. */
    ghost predicate Valid()
      reads this
    {
      && isAdmin == AdminFor(adminEmails, user)
      && "" !in adminEmails
    }

    /**
     * The hook before the first callback: no user, loading, not admin. It
     * exists only once start-up succeeded (otherwise the configuration module
     * throws first), and uses the allow-list start-up parsed.
     */
    constructor (env: Env)
      requires Initialize(env).Success?
      ensures Valid()
      ensures adminEmails == AdminEmails(env)
      ensures user.None? && loading && !isAdmin
    {
      adminEmails := Initialize(env).value.adminEmails;
      user := None;
      loading := true;
      isAdmin := false;
      NoEmptyEntry(env);
    }

    /**
     * The auth-state callback: user, isAdmin and loading are set together,
     * from the callback's user alone; loading only ever becomes false.
     */
    method OnAuthStateChanged(current: Option<User>)
      requires Valid()
      modifies this`user, this`isAdmin, this`loading
      ensures Valid()
      ensures user == current && !loading
      ensures isAdmin <==> current.Some? && current.value.email.GetOr("") in adminEmails
      ensures current.Some? && current.value.email.None? ==> !isAdmin
    {
      user := current;
      isAdmin := if current.Some? then Allowed(adminEmails, current.value) else false;
      loading := false;
    }

    /**
     * `loginWithGoogle`: an allow-listed user is returned; anyone else is
     * signed out again and null is returned; a provider error returns null
     * with its message (or 'Failed to login' when the message is empty).
     */
    method LoginWithGoogle(result: SignInResult) returns (returned: Option<User>, signedOut: bool, notice: string)
      ensures returned.Some? <==> result.SignedIn? && Allowed(adminEmails, result.user)
      ensures returned.Some? ==> returned.value == result.user && notice == LoginSuccessNotice
      ensures signedOut <==> result.SignedIn? && !Allowed(adminEmails, result.user)
      ensures signedOut ==> notice == UnauthorizedNotice
      ensures result.ProviderError? ==> notice == (if result.message != "" then result.message else LoginFailedNotice)
    {
      match result
      case ProviderError(message) =>
        returned := None;
        signedOut := false;
        notice := if message != "" then message else LoginFailedNotice;
      case SignedIn(u) =>
        if !Allowed(adminEmails, u) {
          returned := None;
          signedOut := true;
          notice := UnauthorizedNotice;
        } else {
          returned := Some(u);
          signedOut := false;
          notice := LoginSuccessNotice;
        }
    }
  }

  /** The allow-list never holds the empty string. */
  lemma NoEmptyEntry(env: Env)
    ensures "" !in AdminEmails(env)
  {
    var emails := AdminEmails(env);
    assert forall e :: e in emails ==> exists i :: 0 <= i < |emails| && emails[i] == e;
  }
}
