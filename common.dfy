/** Shared vocabulary: document ids and the shapes of a controller's answer. */
module Common {

  /** A database ObjectId. Only equality matters, so an id is a natural number. */
  type NodeId = nat
  type SongId = nat
  type UserId = nat

  /** A value that may be null / undefined in the source. */
  datatype Option<+T> = None | Some(value: T)

  /** An operation that either succeeds with no payload or fails with an error. */
  datatype Outcome<+E> = Pass | Fail(error: E)

  /** An operation that either returns a value or fails with an error. */
  datatype Result<+T, +E> = Ok(value: T) | Err(error: E)

  /** JavaScript truthiness of an optional string: present and not empty. */
  predicate Truthy(s: Option<string>)
  {
    s.Some? && s.value != ""
  }

  /**
   * A user id as a JavaScript value in an ownership test: either the string
   * that an ObjectId's `toString()` gives, or the ObjectId object itself.
   */
  datatype IdValue = IdString(id: UserId) | IdObject(id: UserId)

  /** `toString()`: an ObjectId becomes its string form, and a string stays as it is. */
  function ToString(v: IdValue): (r: IdValue)
    ensures r.IdString? && r.id == v.id
  {
    IdString(v.id)
  }

  /**
   * Strict equality `===`. Two strings are equal when their text is, and a
   * string never equals an object. Two ObjectId objects are equal only when
   * they are the same object, and the two sides of an ownership test are
   * never the same object.
   */
  predicate StrictEquals(a: IdValue, b: IdValue)
  {
    a.IdString? && b.IdString? && a.id == b.id
  }

  /**
   * The `req.user` object that the authentication middleware attaches to a
   * request. `id` holds the user's id. `underscoreId` is the `_id` field,
   * and `None` stands for undefined.
   */
  datatype RequestUser = RequestUser(id: IdValue, underscoreId: Option<IdValue>)

  /**
   * The `req.user` the middleware builds for the user it authenticated:
   * `id` is the stored ObjectId, and there is no `_id` field.
   */
  function Authenticated(user: UserId): RequestUser
  {
    RequestUser(IdObject(user), None)
  }
}
