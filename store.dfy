/** The two tables the controller touches, as sequences of rows, and the
    lookups it performs on them. */
module Store {
  import opened Entities

  /** Primary-key uniqueness of the People table. */
  ghost predicate UniqueIds(people: seq<Person>)
  {
    forall i, j :: 0 <= i < j < |people| ==> people[i].id != people[j].id
  }

  /** The unique index on the e-mail column of the Users table. */
  ghost predicate UniqueEmails(users: seq<User>)
  {
    forall i, j :: 0 <= i < j < |users| ==> users[i].email != users[j].email
  }

  /** Some user has this id: the target of the Person-to-User foreign key. */
  ghost predicate IsUserId(users: seq<User>, id: int)
  {
    exists u :: u in users && u.id == id
  }

  /** The position of the row with primary key `id`: the lookup behind `Find`. */
  function FindIndex(people: seq<Person>, id: int): (r: Option<nat>)
    ensures r.Some? ==> r.value < |people| && people[r.value].id == id
    ensures r.None? <==> forall p :: p in people ==> p.id != id
    ensures UniqueIds(people) ==> forall k :: 0 <= k < |people| && people[k].id == id ==> r == Some(k)
  {
    if people == [] then
      None
    else if people[0].id == id then
      Some(0)
    else
      assert forall p :: p in people ==> p == people[0] || p in people[1..];
      match FindIndex(people[1..], id)
      case None => None
      case Some(j) => Some(j + 1)
  }

  /** The row with primary key `id`, or null. */
  function Find(people: seq<Person>, id: int): (r: Option<Person>)
    ensures r.Some? ==> r.value in people && r.value.id == id
    ensures r.None? <==> forall p :: p in people ==> p.id != id
  {
    match FindIndex(people, id)
    case None => None
    case Some(i) => Some(people[i])
  }

  /** Whether a row with primary key `id` is stored (the controller's `PersonExists`). */
  function PersonExists(people: seq<Person>, id: int): (r: bool)
    ensures r <==> exists p :: p in people && p.id == id
  {
    FindIndex(people, id).Some?
  }

  /** The table after removing the row at position `i`. */
  function RemoveAt(people: seq<Person>, i: nat): (r: seq<Person>)
    requires i < |people|
    ensures |r| == |people| - 1
    ensures forall p :: p in r ==> p in people
    ensures UniqueIds(people) ==> UniqueIds(r)
    ensures UniqueIds(people) ==> forall p :: p in r <==> p in people && p.id != people[i].id
  {
    var r := people[..i] + people[i + 1..];
    assert forall k :: 0 <= k < |r| ==> r[k] == people[if k < i then k else k + 1];
    assert forall p :: p in people ==> exists k :: 0 <= k < |people| && people[k] == p;
    r
  }

  /** The id of the first user whose e-mail equals `name`, or null when there
      is none. */
  function QueryForOwnerId(users: seq<User>, name: string): (r: Option<int>)
    ensures r.Some? <==> exists u :: u in users && u.email == name
    ensures r.Some? ==> User(r.value, name) in users
    ensures UniqueEmails(users) ==> forall u :: u in users && u.email == name ==> r == Some(u.id)
  {
    if users == [] then
      None
    else if users[0].email == name then
      Some(users[0].id)
    else
      assert forall u :: u in users ==> u == users[0] || u in users[1..];
      QueryForOwnerId(users[1..], name)
  }

  /** An id greater than every stored one, and positive: where the store's
      identity column continues. */
  function NextFreeId(people: seq<Person>): (r: int)
    ensures r >= 1
    ensures forall p :: p in people ==> p.id < r
  {
    if people == [] then
      1
    else
      var rest := NextFreeId(people[1..]);
      assert forall p :: p in people ==> p == people[0] || p in people[1..];
      if people[0].id < rest then rest else people[0].id + 1
  }
}
