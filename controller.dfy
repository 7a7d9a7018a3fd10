/** The controller's state-changing actions. The object holds the two tables
    of the database context; each action updates the People table as the
    saved changes of one request would. */
module Controller {
  import opened Entities
  import opened Store
  import Access

  /** What the store reports when the edited row is saved: the write went
      through, or another request got in between and either deleted the row
      or updated it (an optimistic-concurrency failure). */
  datatype SaveOutcome = Saved | DeletedConcurrently | ModifiedConcurrently

  class PeopleController {
    /** The People table, in the order the store returns its rows. */
    var people: seq<Person>
    /** The Users table; no action here changes it. */
    var users: seq<User>
    /** The next value of the People table's identity column. */
    var nextId: int

    /** The store's constraints: primary key, unique e-mail index, the
        identity column ahead of every key, and the owner foreign key. */
    ghost predicate Valid()
      reads this
    {
      && UniqueIds(people)
      && UniqueEmails(users)
      && (forall p :: p in people ==> p.id < nextId)
      && (forall p :: p in people ==> IsUserId(users, p.ownerId))
    }

    constructor (users: seq<User>, people: seq<Person>)
      requires UniqueIds(people) && UniqueEmails(users)
      requires forall p :: p in people ==> IsUserId(users, p.ownerId)
      ensures Valid() && this.people == people && this.users == users
    {
      this.people := people;
      this.users := users;
      this.nextId := NextFreeId(people);
    }

    /** POST Create: a signed-in caller with a valid form adds one row, owned
        by the user whose e-mail is the caller's name and keyed by the next
        identity value; every existing row stays as it was. */
    method CreatePost(caller: Caller, form: PersonForm, modelValid: bool, guid: string) returns (r: Response)
      requires Valid()
      modifies this`people, this`nextId
      ensures Valid()
      ensures r == RedirectToIndex ==> nextId == old(nextId) + 1
      ensures r != RedirectToIndex ==> nextId == old(nextId)
      ensures caller.Anonymous? ==> r == Challenge && people == old(people)
      ensures caller.SignedIn? && !modelValid ==> r == View(None) && people == old(people)
      ensures caller.SignedIn? && modelValid && QueryForOwnerId(users, caller.name).None? ==>
                r == Error(NullReference) && people == old(people)
      ensures caller.SignedIn? && modelValid && QueryForOwnerId(users, caller.name).Some? ==>
                && r == RedirectToIndex
                && !PersonExists(old(people), old(nextId))
                && people == old(people) + [Person(old(nextId), form.name, form.surname, form.description,
                                                   form.lastSeenLocation, form.isWoman,
                                                   Access.UploadImageFile(form.image, guid),
                                                   QueryForOwnerId(users, caller.name).value)]
                && User(people[|people| - 1].ownerId, caller.name) in users
    {
      var gate := Access.Gate(caller, Access.AnyUser);
      if gate.Some? {
        return gate.value;
      }
      if !modelValid {
        return View(None);
      }
      var person := Person(nextId, form.name, form.surname, form.description, form.lastSeenLocation,
                           form.isWoman, None, 0);
      var owner := QueryForOwnerId(users, caller.name);
      if owner.None? {
        // stands for the null dereference of the owner lookup (PeopleController.cs line 236)
        return Error(NullReference);
      }
      person := person.(ownerId := owner.value);
      person := person.(image := Access.UploadImageFile(form.image, guid));
      people := people + [person];
      nextId := nextId + 1;
      r := RedirectToIndex;
    }

    /** POST Edit. The route id must equal the form's id; the stored row is
        then patched in memory with the five display fields, the owner check
        runs against it, and the row is written only for an owner or an
        administrator with a valid form. A concurrency failure becomes "not
        found" when the row has gone, and is rethrown otherwise. */
    method EditPost(id: int, input: Person, caller: Caller, modelValid: bool, save: SaveOutcome, policy: Policy)
      returns (r: Response)
      requires Valid()
      modifies this`people
      ensures Valid()
      ensures caller.Anonymous? ==> r == Challenge && people == old(people)
      ensures caller.SignedIn? && id != input.id ==> r == NotFound && people == old(people)
      ensures caller.SignedIn? && id == input.id && !PersonExists(old(people), id) ==>
                r == Error(NullReference) && people == old(people)
      ensures caller.SignedIn? && id == input.id && PersonExists(old(people), id) ==>
                var i := FindIndex(old(people), id).value;
                var edited := Access.Patch(old(people)[i], input);
                match Access.Authorize(users, caller, edited)
                case OwnerLookupFailed => r == Error(NullReference) && people == old(people)
                case Denied => r == AccessDenied && people == old(people)
                case Granted =>
                  if !modelValid then
                    people == old(people) && r == (if policy(caller, edited) then View(Some(input)) else Challenge)
                  else
                    match save
                    case Saved => r == RedirectToIndex && people == old(people)[i := edited]
                    case DeletedConcurrently => r == NotFound && people == RemoveAt(old(people), i)
                    case ModifiedConcurrently => r == Error(ConcurrencyConflict) && people == old(people)
      ensures r == RedirectToIndex ==>
                && caller.SignedIn? && modelValid && save == Saved
                && exists p :: p in old(people) && p.id == id && (caller.isAdmin || Access.IsOwner(users, caller, p))
      ensures forall p :: p in people ==>
                exists q :: q in old(people) && q.id == p.id && q.ownerId == p.ownerId && q.image == p.image
    {
      var gate := Access.Gate(caller, Access.AnyUser);
      if gate.Some? {
        return gate.value;
      }
      if id != input.id {
        return NotFound;
      }
      var found := FindIndex(people, id);
      if found.None? {
        // stands for the null dereference after Find (PeopleController.cs line 157)
        return Error(NullReference);
      }
      var i := found.value;
      var edited := people[i];
      edited := edited.(isWoman := input.isWoman);
      edited := edited.(surname := input.surname);
      edited := edited.(name := input.name);
      edited := edited.(description := input.description);
      edited := edited.(lastSeenLocation := input.lastSeenLocation);
      assert edited == Access.Patch(people[i], input);
      var access := Access.Authorize(users, caller, edited);
      if access.OwnerLookupFailed? {
        return Error(NullReference);
      }
      if access.Denied? {
        return AccessDenied;
      }
      if modelValid {
        if save == Saved {
          assert forall p :: p in people[i := edited] ==> p == edited || p in people;
          people := people[i := edited];
        } else {
          if save == DeletedConcurrently {
            // the other request's delete has been committed
            people := RemoveAt(people, i);
          }
          if !PersonExists(people, input.id) {
            return NotFound;
          }
          return Error(ConcurrencyConflict);
        }
        return RedirectToIndex;
      }
      if policy(caller, edited) {
        r := View(Some(input));
      } else {
        r := Challenge;
      }
    }

    /** POST Delete, for administrators only: removes the row with this id
        and leaves every other row as it was. */
    method DeleteConfirmed(caller: Caller, id: int) returns (r: Response)
      requires Valid()
      modifies this`people
      ensures Valid()
      ensures caller.Anonymous? ==> r == Challenge && people == old(people)
      ensures caller.SignedIn? && !caller.isAdmin ==> r == Forbid && people == old(people)
      ensures caller.SignedIn? && caller.isAdmin && !PersonExists(old(people), id) ==>
                r == Error(ArgumentNull) && people == old(people)
      ensures caller.SignedIn? && caller.isAdmin && PersonExists(old(people), id) ==>
                && r == RedirectToIndex
                && people == RemoveAt(old(people), FindIndex(old(people), id).value)
                && |people| == |old(people)| - 1
                && !PersonExists(people, id)
                && forall p :: p in people <==> p in old(people) && p.id != id
    {
      var gate := Access.Gate(caller, Access.AdministratorOnly);
      if gate.Some? {
        return gate.value;
      }
      var found := FindIndex(people, id);
      if found.None? {
        // stands for Remove rejecting the null row (PeopleController.cs line 223)
        return Error(ArgumentNull);
      }
      people := RemoveAt(people, found.value);
      r := RedirectToIndex;
    }
  }
}
