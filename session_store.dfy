/** The per-browser session the two authorization endpoints share. The
    session library itself is not part of this model: what the server
    relies on is stated through `Get`, `Has` and `Set`, and the three
    points where the library's behaviour is not visible are parameters. */
module SessionStore {
  import opened JsValues
  import opened Users
  import opened AuthleteTypes

  /** The session library's behaviour where the server depends on it.
      - absentReadsAsNull: `get` of a key that was never set yields `null`
        (otherwise `undefined`, as for a missing property of an object).
      - nullWriteDeletes: `set(key, null)` removes the key (otherwise the
        key stays, holding `null`).
      - nullKeyIsPresent: `has` reports a key that holds `null` or
        `undefined` (otherwise only keys holding an object). */
  datatype StoreSemantics = StoreSemantics(
    absentReadsAsNull: bool,
    nullWriteDeletes: bool,
    nullKeyIsPresent: bool)

  /** The state of one session key: never set (or removed), or holding a
      JavaScript value. */
  datatype Slot<T> = Absent | Stored(content: Js<T>)

  /** `session.get(key)`. */
  function Get<T>(sem: StoreSemantics, s: Slot<T>): (r: Js<T>)
    ensures r.Val? <==> s.Stored? && s.content.Val?
    ensures s.Stored? ==> r == s.content
    ensures s.Absent? ==> (r != Undefined <==> sem.absentReadsAsNull)
  {
    match s
    case Absent => if sem.absentReadsAsNull then Null else Undefined
    case Stored(v) => v
  }

  /** `session.has(key)`. */
  function Has<T>(sem: StoreSemantics, s: Slot<T>): (present: bool)
    ensures s.Absent? ==> !present
    ensures s.Stored? && s.content.Val? ==> present
    ensures s.Stored? && !s.content.Val? ==> (present <==> sem.nullKeyIsPresent)
  {
    s.Stored? && (s.content.Val? || sem.nullKeyIsPresent)
  }

  /** The state of a key after `session.set(key, v)`. */
  function Set<T>(sem: StoreSemantics, v: Js<T>): (s: Slot<T>)
    ensures Get(sem, s).Val? <==> v.Val?
    ensures v.Val? ==> Get(sem, s) == v && Has(sem, s)
  {
    if !v.Val? && sem.nullWriteDeletes then Absent else Stored(v)
  }

  /** An object written to a key is reported present and read back. */
  lemma SetObjectReadsBack<T>(sem: StoreSemantics, x: T)
    ensures Has(sem, Set(sem, Val(x))) && Get(sem, Set(sem, Val(x))) == Val(x)
  {
  }

  /** A key written with `null` reads back `null` or `undefined`, and `has`
      reports it exactly when the library keeps null-valued keys and counts
      them. */
  lemma SetNullReadsFalsy<T>(sem: StoreSemantics)
    ensures !Get(sem, Set<T>(sem, Null)).Val?
    ensures Has(sem, Set<T>(sem, Null)) <==> !sem.nullWriteDeletes && sem.nullKeyIsPresent
  {
  }

  /** The five session keys the authorization flow uses. `authTime` is a
      `Date`, kept here as milliseconds since the epoch. */
  datatype SessionState = SessionState(
    user: Slot<User>,
    authTime: Slot<int>,
    params: Slot<Params>,
    acrs: Slot<seq<string>>,
    client: Slot<Client>)

  /** A session in which none of the keys was ever set. */
  function EmptyState(): SessionState
  {
    SessionState(Absent, Absent, Absent, Absent, Absent)
  }

  /** The session object the endpoints receive as `ctx.state.session`,
      updated in place with `session.set`. */
  class Session {
    const sem: StoreSemantics
    var user: Slot<User>
    var authTime: Slot<int>
    var params: Slot<Params>
    var acrs: Slot<seq<string>>
    var client: Slot<Client>

    /** A new session: no key set yet. */
    constructor (sem: StoreSemantics)
      ensures this.sem == sem && State() == EmptyState()
    {
      this.sem := sem;
      user, authTime, params := Absent, Absent, Absent;
      acrs, client := Absent, Absent;
    }

    /** The keys of the session as one value. */
    function State(): SessionState
      reads this
    {
      SessionState(user, authTime, params, acrs, client)
    }
  }
}
