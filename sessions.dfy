/**
 * The login session the routes consult: who is logged in and with which
 * role. `POST /auth/login` fills it, `PATCH /api/users/profile/:userId`
 * rewrites it, and the admin-only routes test its role.
 */
module Sessions {
  import opened Common

  /** The `role` column of a user: `'registered'` or `'administrator'`. */
  datatype Role = Registered | Administrator

  /**
   * `req.session.user`. Login stores no phone number; a profile update adds
   * one, hence the optional `phone`.
   */
  datatype SessionUser = SessionUser(
    id: nat, username: string, role: Role,
    firstName: string, lastName: string, studentId: string, email: string,
    phone: Option<string>)

  /** `req.session.user && req.session.user.role === 'administrator'`. */
  predicate IsAdmin(session: Option<SessionUser>)
  {
    session.Some? && session.value.role == Administrator
  }

  /** The session store entry of one browser. */
  class Session {
    var user: Option<SessionUser>

    constructor ()
      ensures user.None?
    {
      user := None;
    }
  }
}
