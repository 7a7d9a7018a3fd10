/** The values the people controller works with: table rows, the caller, and
    the responses an action can produce. */
module Entities {

  datatype Option<+T> = None | Some(value: T)

  /** A row of the People table. `image` is the stored file name of the
      uploaded photo, if any; `ownerId` refers to a row of the Users table. */
  datatype Person = Person(
    id: int,
    name: string,
    surname: string,
    description: string,
    lastSeenLocation: string,
    isWoman: bool,
    image: Option<string>,
    ownerId: int)

  /** A row of the Users table, as far as the controller reads it. */
  datatype User = User(id: int, email: string)

  /** The principal of a request: the identity's name claim (the e-mail the
      user signed in with) and whether it is in the Administrator role. */
  datatype Caller = Anonymous | SignedIn(name: string, isAdmin: bool)

  /** An uploaded file, reduced to the name the client gave it. */
  datatype Upload = Upload(fileName: string)

  /** The create form: the five display fields and an optional photo. */
  datatype PersonForm = PersonForm(
    name: string,
    surname: string,
    isWoman: bool,
    description: string,
    lastSeenLocation: string,
    image: Option<Upload>)

  /** The "EditPolicy" authorization requirement: opaque to the controller,
      asked about a caller and a row. */
  type Policy = (Caller, Person) -> bool

  /** An exception that escapes an action (the host answers with a server error). */
  datatype Fault =
    | NullReference        // a null row or user is dereferenced
    | ArgumentNull         // a null row is handed to Remove
    | ConcurrencyConflict  // an optimistic-concurrency failure is rethrown

  /** What an action answers. */
  datatype Response =
    | NotFound
    | AccessDenied               // redirect to the access-denied page
    | Challenge                  // ask the caller to authenticate again
    | Forbid                     // the role gate of the host rejected the caller
    | View(model: Option<Person>)
    | RedirectToIndex
    | Error(fault: Fault)
}
