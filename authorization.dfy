/**
 * Who may manage sessions: registered instructors and the bot's owners. As written, the
 * owner check and the combined check return or test coroutine objects that are never
 * awaited, and a coroutine object is always true.
 */
module Authorization {
  import opened Store

  /** A coroutine that has been created but not awaited; `result` is what awaiting it gives. */
  datatype Coroutine = Pending(result: bool)

  /** Python's truth test on an object: a coroutine object is always true. */
  function Truthy(c: Coroutine): (r: bool)
    ensures r
  {
    true
  }

  /** The user is in the stored instructor registry; an absent key admits nobody. */
  function UserIsInstructor(db: Database, user: int): (r: bool)
    reads db`instructors
    ensures r <==> db.instructors.Some? && user in db.instructors.value
  {
    user in db.Registry()
  }

  /** The owner check as written: it returns the un-awaited `is_owner` coroutine. */
  function UserIsOwnerAsWritten(owners: set<int>, user: int): (r: bool)
    ensures r
  {
    Truthy(Pending(user in owners))
  }

  /** The owner check with `is_owner` awaited: the user is one of the bot's owners. */
  function UserIsOwner(owners: set<int>, user: int): (r: bool)
    ensures r <==> user in owners
  {
    user in owners
  }

  /** The combined check as written: the `or` sees two coroutine objects. */
  function UserIsInstructorOrOwnerAsWritten(db: Database, owners: set<int>, user: int): (r: bool)
    reads db`instructors
    ensures r
  {
    Truthy(Pending(UserIsInstructor(db, user))) || Truthy(Pending(UserIsOwner(owners, user)))
  }

  /** The combined check with both checks awaited. */
  function UserIsInstructorOrOwner(db: Database, owners: set<int>, user: int): (r: bool)
    reads db`instructors
    ensures r <==> (db.instructors.Some? && user in db.instructors.value) || user in owners
  {
    UserIsInstructor(db, user) || UserIsOwner(owners, user)
  }

  /** As written, a user who is neither a registered instructor nor an owner is let through. */
  lemma AsWrittenAdmitsOutsiders(db: Database, owners: set<int>, user: int)
    requires user !in db.Registry() && user !in owners
    ensures UserIsInstructorOrOwnerAsWritten(db, owners, user)
    ensures UserIsOwnerAsWritten(owners, user)
    ensures !UserIsInstructorOrOwner(db, owners, user) && !UserIsOwner(owners, user)
  {
  }
}
