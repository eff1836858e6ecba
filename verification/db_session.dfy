/** The database error value and the scoped session guard of the shell's
    database access layer. */
module DbSession {
  import opened Results

  /** `mysqlshdk::db::Error`: the message, the server error code and the
      SQLSTATE (empty unless given). */
  datatype DbError = DbError(what: string, code: int, sqlstate: string)

  /** The two-argument constructor. */
  function NewError(what: string, code: int): (e: DbError)
    ensures e.code == code && e.sqlstate == "" && e.what == what
  {
    DbError(what, code, "")
  }

  /** The three-argument constructor. */
  function NewErrorWithState(what: string, code: int, sqlstate: string): (e: DbError)
    ensures e.code == code && e.sqlstate == sqlstate && e.what == what
  {
    DbError(what, code, sqlstate)
  }

  /** `code()`: the code the error was built with. */
  function ErrorCode(e: DbError): (c: int)
    ensures e == NewErrorWithState(e.what, c, e.sqlstate)
  {
    e.code
  }

  /** `sqlstate()`: the SQLSTATE the error was built with, empty if none. */
  function SqlState(e: DbError): (state: string)
    ensures e == NewErrorWithState(e.what, e.code, state)
  {
    e.sqlstate
  }

  /** Both constructors agree when the SQLSTATE given is empty. */
  lemma ConstructorsAgree(what: string, code: int)
    ensures NewErrorWithState(what, code, "") == NewError(what, code)
  {
  }

  /** A `Scoped_session` holding a shared session pointer; `None` is the
      null pointer. */
  datatype ScopedSession<S> = ScopedSession(held: Option<S>)

  /** The constructor wraps the pointer it is given. */
  function Wrap<S>(session: Option<S>): (g: ScopedSession<S>)
    ensures g.held == session
  {
    ScopedSession(session)
  }

  /** `operator->` and the conversion to `shared_ptr`: the wrapped pointer. */
  function Get<S>(g: ScopedSession<S>): (p: Option<S>)
    ensures Wrap(p) == g
  {
    g.held
  }

  /** `operator*`: the wrapped session; dereferencing a null pointer is
      undefined, so the caller must hold one. */
  function Deref<S>(g: ScopedSession<S>): (s: S)
    requires g.held.Some?
    ensures Get(g) == Some(s)
  {
    g.held.value
  }

  /** The destructor, as the log of `close()` calls it adds to: one call on
      the held session, none when the pointer is null. */
  function Destroy<S>(g: ScopedSession<S>, closes: seq<S>): (r: seq<S>)
    ensures g.held.None? ==> r == closes
    ensures g.held.Some? ==> |r| == |closes| + 1 && r[..|closes|] == closes && r[|closes|] == g.held.value
  {
    match g.held
    case None => closes
    case Some(s) => closes + [s]
  }

  /** A scope that builds a guard around `session` and runs `body` with it.
      The body either returns a value or throws; either way the guard's
      destructor runs on the way out and the outcome passes through. The
      result is the body's outcome and the log of `close()` calls. */
  function GuardedScope<S, T, E>(session: Option<S>, body: ScopedSession<S> -> Result<T, E>,
                                 closes: seq<S>): (Result<T, E>, seq<S>)
  {
    var g := Wrap(session);
    var outcome := body(g);
    (outcome, Destroy(g, closes))
  }

  /** The same scope written without the guard: `close()` is called at the
      end of the body, which an exception skips. */
  function UnguardedScope<S, T, E>(session: Option<S>, body: ScopedSession<S> -> Result<T, E>,
                                   closes: seq<S>): (Result<T, E>, seq<S>)
  {
    var outcome := body(Wrap(session));
    if outcome.Returned? && session.Some? then (outcome, closes + [session.value])
    else (outcome, closes)
  }

  /** Whether the body returns or throws, the guarded scope passes its
      outcome through, closes a held session exactly once more and closes
      no other session; a null pointer closes nothing. */
  lemma GuardClosesOnce<S, T, E>(session: Option<S>, body: ScopedSession<S> -> Result<T, E>,
                                 closes: seq<S>, other: S)
    ensures GuardedScope(session, body, closes).0 == body(Wrap(session))
    ensures session.Some? ==>
      multiset(GuardedScope(session, body, closes).1)[session.value] == multiset(closes)[session.value] + 1
    ensures session.Some? && other != session.value ==>
      multiset(GuardedScope(session, body, closes).1)[other] == multiset(closes)[other]
    ensures session.None? ==> GuardedScope(session, body, closes).1 == closes
  {
  }

  /** The guard makes a difference exactly when the body throws with a
      session held: only then does the unguarded scope leave it open. */
  lemma GuardMattersOnThrow<S, T, E>(session: Option<S>, body: ScopedSession<S> -> Result<T, E>,
                                     closes: seq<S>)
    ensures GuardedScope(session, body, closes) != UnguardedScope(session, body, closes)
        <==> session.Some? && body(Wrap(session)).Raised?
    ensures body(Wrap(session)).Raised? ==> UnguardedScope(session, body, closes).1 == closes
  {
    if session.Some? && body(Wrap(session)).Raised? {
      assert |GuardedScope(session, body, closes).1| == |closes| + 1;
    }
  }
}
