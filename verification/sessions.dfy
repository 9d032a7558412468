/**
 * The signed session cookie.  It holds two independent facts: which user is
 * signed in (`user_id` and `username`) and whether an admin is signed in.
 */
module Sessions {
  import opened Wrappers

  datatype Session = Session(userId: Option<int>, username: Option<string>, admin: bool)

  /** A browser that has signed in as nothing. */
  const Anonymous: Session := Session(None, None, false)

  /** The user guard, `session.get('user_id')`: present and truthy, and the integer 0 is falsy. */
  predicate SignedIn(s: Session) {
    s.userId.Some? && s.userId.value != 0
  }

  /** `user_id` and `username` are stored and removed together. */
  predicate Consistent(s: Session) {
    s.userId.Some? <==> s.username.Some?
  }
}
