/** The decisions of the read-only actions and the pieces the write actions
    share: the sign-in and role gates, the owner-or-administrator check, the
    five-field patch and the name given to an uploaded photo. */
module Access {
  import opened Entities
  import opened Store

  /** What an action's authorization attribute demands. */
  datatype Requirement = AnyUser | AdministratorOnly

  /** The host's authorization gate in front of an action: an anonymous
      caller is challenged, a signed-in caller without the required role is
      forbidden, and `None` lets the action run. */
  function Gate(caller: Caller, req: Requirement): (r: Option<Response>)
    ensures r.None? <==> caller.SignedIn? && (req.AnyUser? || caller.isAdmin)
    ensures r.Some? ==> r.value in {Challenge, Forbid}
    ensures r == Some(Challenge) <==> caller.Anonymous?
  {
    match caller
    case Anonymous => Some(Challenge)
    case SignedIn(_, isAdmin) =>
      if req.AdministratorOnly? && !isAdmin then Some(Forbid) else None
  }

  /** The caller's own user row carries the id that owns `p`. */
  ghost predicate IsOwner(users: seq<User>, caller: Caller, p: Person)
    requires caller.SignedIn?
  {
    User(p.ownerId, caller.name) in users
  }

  /** The outcome of the manual ownership check. */
  datatype OwnerCheck = Granted | Denied | OwnerLookupFailed

  /** The owner-or-administrator check of both Edit actions: the caller's
      user id is looked up by e-mail first (a missing user row is a null
      dereference, even for an administrator); the caller then passes if that
      id owns `stored` or if the caller is an administrator. */
  function Authorize(users: seq<User>, caller: Caller, stored: Person): (a: OwnerCheck)
    requires caller.SignedIn?
    ensures a == OwnerLookupFailed <==> forall u :: u in users ==> u.email != caller.name
    ensures a == Denied ==> !caller.isAdmin
    ensures UniqueEmails(users) && a != OwnerLookupFailed ==>
              (a == Granted <==> caller.isAdmin || IsOwner(users, caller, stored))
  {
    match QueryForOwnerId(users, caller.name)
    case None => OwnerLookupFailed
    case Some(ownerId) =>
      if ownerId != stored.ownerId && !caller.isAdmin then Denied else Granted
  }

  /** GET Details: a missing or unknown id is not found; otherwise the row is shown. */
  function Details(people: seq<Person>, id: Option<int>): (r: Response)
    ensures r == NotFound <==> id.None? || !PersonExists(people, id.value)
    ensures r != NotFound ==> r.View? && r.model.Some? && r.model.value in people && r.model.value.id == id.value
  {
    if id.None? then
      NotFound
    else
      match Find(people, id.value)
      case None => NotFound
      case Some(p) => View(Some(p))
  }

  /** GET Edit: after the sign-in gate, a missing or unknown id is not found;
      a caller who is neither the owner nor an administrator is sent to the
      access-denied page; only then is the edit policy asked, and it decides
      between showing the form and a challenge. */
  function EditGet(people: seq<Person>, users: seq<User>, caller: Caller, id: Option<int>, policy: Policy): (r: Response)
    ensures caller.Anonymous? ==> r == Challenge
    ensures caller.SignedIn? && (id.None? || !PersonExists(people, id.value)) ==> r == NotFound
    ensures r == AccessDenied ==>
              && caller.SignedIn? && !caller.isAdmin && id.Some?
              && exists p :: p in people && p.id == id.value && (UniqueEmails(users) ==> !IsOwner(users, caller, p))
    ensures r.View? ==>
              && caller.SignedIn? && id.Some? && r.model.Some?
              && r.model.value in people && r.model.value.id == id.value
              && (UniqueEmails(users) ==> caller.isAdmin || IsOwner(users, caller, r.model.value))
              && policy(caller, r.model.value)
    ensures r.Error? ==>
              && r.fault == NullReference && caller.SignedIn? && id.Some? && PersonExists(people, id.value)
              && forall u :: u in users ==> u.email != caller.name
    ensures caller.SignedIn? && id.Some? && PersonExists(people, id.value) && (forall u :: u in users ==> u.email != caller.name) ==>
              r == Error(NullReference)
  {
    match Gate(caller, AnyUser)
    case Some(denied) => denied
    case None =>
      if id.None? then
        NotFound
      else
        match Find(people, id.value)
        case None => NotFound
        case Some(person) =>
          match Authorize(users, caller, person)
          case OwnerLookupFailed => Error(NullReference)
          case Denied => AccessDenied
          case Granted => if policy(caller, person) then View(Some(person)) else Challenge
  }

  /** The order of the checks of GET Edit on a stored row, for a caller whose
      user row exists: a non-owner non-administrator is denied, anyone else
      gets the form exactly when the policy succeeds. */
  lemma EditGetDecision(people: seq<Person>, users: seq<User>, caller: Caller, p: Person, policy: Policy)
    requires UniqueIds(people) && UniqueEmails(users)
    requires caller.SignedIn? && p in people
    requires exists u :: u in users && u.email == caller.name
    ensures !caller.isAdmin && !IsOwner(users, caller, p) ==> EditGet(people, users, caller, Some(p.id), policy) == AccessDenied
    ensures caller.isAdmin || IsOwner(users, caller, p) ==>
              EditGet(people, users, caller, Some(p.id), policy) == if policy(caller, p) then View(Some(p)) else Challenge
  {
  }

  /** A caller who is neither owner nor administrator never reaches the
      edit policy: the answer is the same whatever the policy says. */
  lemma EditGetPolicyNotConsulted(people: seq<Person>, users: seq<User>, caller: Caller, id: Option<int>,
                                   policy1: Policy, policy2: Policy)
    requires UniqueEmails(users) && caller.SignedIn? && !caller.isAdmin
    requires forall p :: p in people && id == Some(p.id) ==> !IsOwner(users, caller, p)
    ensures EditGet(people, users, caller, id, policy1) == EditGet(people, users, caller, id, policy2)
  {
  }

  /** GET Delete: the administrator gate, then the same lookup as Details. */
  function DeleteGet(people: seq<Person>, caller: Caller, id: Option<int>): (r: Response)
    ensures caller.Anonymous? ==> r == Challenge
    ensures caller.SignedIn? && !caller.isAdmin ==> r == Forbid
    ensures caller.SignedIn? && caller.isAdmin ==> r == Details(people, id)
  {
    match Gate(caller, AdministratorOnly)
    case Some(denied) => denied
    case None => Details(people, id)
  }

  /** The fields POST Edit copies from the submitted form onto the stored
      row: sex, surname, name, description and last-seen location. */
  function Patch(stored: Person, input: Person): (r: Person)
    ensures r.id == stored.id && r.ownerId == stored.ownerId && r.image == stored.image
    ensures r.isWoman == input.isWoman && r.surname == input.surname && r.name == input.name
    ensures r.description == input.description && r.lastSeenLocation == input.lastSeenLocation
  {
    stored.(isWoman := input.isWoman, surname := input.surname, name := input.name,
            description := input.description, lastSeenLocation := input.lastSeenLocation)
  }

  /** Re-submitting the same form changes nothing more. */
  lemma PatchIdempotent(stored: Person, input: Person)
    ensures Patch(Patch(stored, input), input) == Patch(stored, input)
  {
  }

  /** The stored name of an uploaded photo: a fresh unique token, an
      underscore, then the client's file name; no upload gives no name. */
  function UploadImageFile(image: Option<Upload>, guid: string): (r: Option<string>)
    ensures r.None? <==> image.None?
    ensures r.Some? ==>
              && |r.value| == |guid| + 1 + |image.value.fileName|
              && r.value[..|guid|] == guid
              && r.value[|guid|] == '_'
              && r.value[|guid| + 1..] == image.value.fileName
  {
    match image
    case None => None
    case Some(file) => Some(guid + "_" + file.fileName)
  }

  /** Two uploads given different tokens of the same length never receive
      the same stored name, whatever their file names. */
  lemma UploadNamesDistinct(a: Upload, b: Upload, guidA: string, guidB: string)
    requires |guidA| == |guidB| && guidA != guidB
    ensures UploadImageFile(Some(a), guidA) != UploadImageFile(Some(b), guidB)
  {
  }
}
