/** The list page: an optional search over four text columns, an optional
    sort on one of two columns, and the sort tokens the page offers next. */
module Query {
  import opened Entities
  import Text

  /** `string.IsNullOrEmpty`. */
  predicate IsNullOrEmpty(s: Option<string>)
  {
    s.None? || s.value == ""
  }

  /** The search text occurs in the name, surname, last-seen location or description. */
  predicate Matches(p: Person, search: string)
  {
    || Text.Contains(p.name, search)
    || Text.Contains(p.surname, search)
    || Text.Contains(p.lastSeenLocation, search)
    || Text.Contains(p.description, search)
  }

  /** A row is listed when there is no search text or when it matches. */
  predicate Selected(p: Person, searchString: Option<string>)
  {
    IsNullOrEmpty(searchString) || Matches(p, searchString.value)
  }

  /** The rows that match `search`, in their original order. */
  function Where(rows: seq<Person>, search: string): seq<Person>
  {
    if rows == [] then
      []
    else
      (if Matches(rows[0], search) then [rows[0]] else []) + Where(rows[1..], search)
  }

  /** The filter keeps each matching row as often as it is stored, and drops
      every other row. */
  lemma {:induction false} WhereCount(rows: seq<Person>, search: string)
    ensures forall p :: multiset(Where(rows, search))[p] == if Matches(p, search) then multiset(rows)[p] else 0
  {
    if rows != [] {
      WhereCount(rows[1..], search);
      assert rows == [rows[0]] + rows[1..];
    }
  }

  /** A row on its own is kept exactly when it matches. */
  lemma WhereSingle(x: Person, search: string)
    ensures Where([x], search) == if Matches(x, search) then [x] else []
  {
    assert [x][1..] == [];
  }

  /** The filter keeps the stored order: filtering a concatenation is the
      concatenation of the filtered parts. */
  lemma {:induction false} WhereAppend(a: seq<Person>, b: seq<Person>, search: string)
    ensures Where(a + b, search) == Where(a, search) + Where(b, search)
  {
    if a == [] {
      assert a + b == b;
    } else {
      WhereAppend(a[1..], b, search);
      WhereConsAppend(a, b, search);
    }
  }

  /** One step of the filter over `a + b`, taken on the first row of `a`. */
  lemma WhereConsAppend(a: seq<Person>, b: seq<Person>, search: string)
    requires a != []
    ensures Where(a + b, search) == Where([a[0]], search) + Where(a[1..] + b, search)
    ensures Where(a, search) == Where([a[0]], search) + Where(a[1..], search)
  {
    var ab := a + b;
    assert ab[0] == a[0];
    assert ab[1..] == a[1..] + b;
    WhereSingle(a[0], search);
  }

  /** The search step of the list query. */
  function Filter(rows: seq<Person>, searchString: Option<string>): (r: seq<Person>)
    ensures IsNullOrEmpty(searchString) ==> r == rows
    ensures forall p :: multiset(r)[p] == if Selected(p, searchString) then multiset(rows)[p] else 0
  {
    if IsNullOrEmpty(searchString) then
      rows
    else
      WhereCount(rows, searchString.value);
      Where(rows, searchString.value)
  }

  /** The four sort orders the list query recognises. */
  datatype SortKey = LocationAsc | LocationDesc | SexAsc | SexDesc

  /** The token that requests each sort order. */
  function Token(k: SortKey): string
  {
    match k
    case LocationAsc => "location_asc"
    case LocationDesc => "location_desc"
    case SexAsc => "sex_asc"
    case SexDesc => "sex_desc"
  }

  /** The switch on the sort token; any other token, null included, selects no order. */
  function ParseSortOrder(sortOrder: Option<string>): (k: Option<SortKey>)
    ensures k.Some? ==> sortOrder == Some(Token(k.value))
  {
    match sortOrder
    case None => None
    case Some(t) =>
      if t == "location_desc" then Some(LocationDesc)
      else if t == "location_asc" then Some(LocationAsc)
      else if t == "sex_desc" then Some(SexDesc)
      else if t == "sex_asc" then Some(SexAsc)
      else None
  }

  /** Every sort order is selected by its own token and by nothing else. */
  lemma TokenRoundTrip(k: SortKey, sortOrder: Option<string>)
    ensures ParseSortOrder(Some(Token(k))) == Some(k)
    ensures ParseSortOrder(sortOrder) == Some(k) <==> sortOrder == Some(Token(k))
  {
  }

  /** `a` may be listed before `b` under sort order `k`: ascending puts false
      before true and a lower location before a higher one. */
  predicate InOrder(k: SortKey, a: Person, b: Person)
  {
    match k
    case LocationAsc => Text.LessEq(a.lastSeenLocation, b.lastSeenLocation)
    case LocationDesc => Text.LessEq(b.lastSeenLocation, a.lastSeenLocation)
    case SexAsc => !a.isWoman || b.isWoman
    case SexDesc => a.isWoman || !b.isWoman
  }

  lemma InOrderTotal(k: SortKey, a: Person, b: Person)
    ensures InOrder(k, a, b) || InOrder(k, b, a)
  {
    Text.LessEqTotal(a.lastSeenLocation, b.lastSeenLocation);
  }

  lemma InOrderTransitive(k: SortKey, a: Person, b: Person, c: Person)
    requires InOrder(k, a, b) && InOrder(k, b, c)
    ensures InOrder(k, a, c)
  {
    match k
    case LocationAsc =>
      Text.LessEqTransitive(a.lastSeenLocation, b.lastSeenLocation, c.lastSeenLocation);
    case LocationDesc =>
      Text.LessEqTransitive(c.lastSeenLocation, b.lastSeenLocation, a.lastSeenLocation);
    case SexAsc =>
    case SexDesc =>
  }

  ghost predicate Sorted(k: SortKey, s: seq<Person>)
  {
    forall i, j :: 0 <= i < j < |s| ==> InOrder(k, s[i], s[j])
  }

  /** `x` placed into `s` ahead of the first row it may precede. */
  function Insert(k: SortKey, x: Person, s: seq<Person>): (r: seq<Person>)
    ensures multiset(r) == multiset(s) + multiset{x}
  {
    if s == [] || InOrder(k, x, s[0]) then
      [x] + s
    else
      assert s == [s[0]] + s[1..];
      [s[0]] + Insert(k, x, s[1..])
  }

  /** A row at or before every row of a sorted list can head it. */
  lemma ConsSorted(k: SortKey, y: Person, t: seq<Person>)
    requires Sorted(k, t)
    requires forall e :: e in t ==> InOrder(k, y, e)
    ensures Sorted(k, [y] + t)
  {
    var r := [y] + t;
    forall i, j | 0 <= i < j < |r| ensures InOrder(k, r[i], r[j]) {
      assert r[j] == t[j - 1];
      if i > 0 {
        assert r[i] == t[i - 1];
      }
    }
  }

  /** A lower bound of `x` and of every row of `s` is a lower bound of every
      row of `Insert(k, x, s)`. */
  lemma InsertBounded(k: SortKey, y: Person, x: Person, s: seq<Person>)
    requires InOrder(k, y, x)
    requires forall e :: e in s ==> InOrder(k, y, e)
    ensures forall e :: e in Insert(k, x, s) ==> InOrder(k, y, e)
  {
    var r := Insert(k, x, s);
    forall e | e in r ensures InOrder(k, y, e) {
      assert e in multiset(r);
      assert e in multiset(s) + multiset{x};
    }
  }

  lemma {:induction false} InsertSorted(k: SortKey, x: Person, s: seq<Person>)
    requires Sorted(k, s)
    ensures Sorted(k, Insert(k, x, s))
  {
    if s == [] {
    } else if InOrder(k, x, s[0]) {
      forall e | e in s ensures InOrder(k, x, e) {
        var j :| 0 <= j < |s| && s[j] == e;
        if j > 0 {
          InOrderTransitive(k, x, s[0], e);
        }
      }
      ConsSorted(k, x, s);
    } else {
      InOrderTotal(k, x, s[0]);
      var tail := s[1..];
      InsertSorted(k, x, tail);
      forall e | e in tail ensures InOrder(k, s[0], e) {
        var j :| 0 <= j < |tail| && tail[j] == e;
        assert s[j + 1] == e;
      }
      InsertBounded(k, s[0], x, tail);
      ConsSorted(k, s[0], Insert(k, x, tail));
    }
  }

  /** A reference sort (insertion sort) for the store's ORDER BY. */
  function SortBy(k: SortKey, s: seq<Person>): (r: seq<Person>)
    ensures multiset(r) == multiset(s)
  {
    if s == [] then
      []
    else
      assert s == [s[0]] + s[1..];
      Insert(k, s[0], SortBy(k, s[1..]))
  }

  lemma {:induction false} SortBySorted(k: SortKey, s: seq<Person>)
    ensures Sorted(k, SortBy(k, s))
  {
    if s != [] {
      SortBySorted(k, s[1..]);
      InsertSorted(k, s[0], SortBy(k, s[1..]));
    }
  }

  /** The switch on the sort token: a recognised token sorts, anything else
      leaves the rows in the order the store returned them. */
  function Order(rows: seq<Person>, sortOrder: Option<string>): (r: seq<Person>)
    ensures multiset(r) == multiset(rows)
    ensures ParseSortOrder(sortOrder).Some? ==> Sorted(ParseSortOrder(sortOrder).value, r)
    ensures ParseSortOrder(sortOrder).None? ==> r == rows
  {
    match ParseSortOrder(sortOrder)
    case None => rows
    case Some(k) =>
      SortBySorted(k, rows);
      SortBy(k, rows)
  }

  /** The link offered for the location column: descending when the list is
      unsorted or sorted by ascending location, ascending otherwise. */
  function LocationSortParm(sortOrder: Option<string>): (t: string)
    ensures ParseSortOrder(Some(t)) in {Some(LocationAsc), Some(LocationDesc)}
    ensures ParseSortOrder(Some(t)) == Some(LocationDesc) <==>
              IsNullOrEmpty(sortOrder) || ParseSortOrder(sortOrder) == Some(LocationAsc)
  {
    if IsNullOrEmpty(sortOrder) || sortOrder.value == "location_asc" then "location_desc" else "location_asc"
  }

  /** The link offered for the sex column: ascending only when the list is
      sorted by descending sex, descending otherwise. */
  function SexSortParm(sortOrder: Option<string>): (t: string)
    ensures ParseSortOrder(Some(t)) in {Some(SexAsc), Some(SexDesc)}
    ensures ParseSortOrder(Some(t)) == Some(SexAsc) <==> ParseSortOrder(sortOrder) == Some(SexDesc)
  {
    if sortOrder == Some("sex_desc") then "sex_asc" else "sex_desc"
  }

  /** Following a column's link from a page sorted on that column reverses
      the direction, and following it twice comes back. */
  lemma ToggleReverses(k: SortKey)
    ensures k == LocationAsc ==> LocationSortParm(Some(Token(k))) == Token(LocationDesc)
    ensures k == LocationDesc ==> LocationSortParm(Some(Token(k))) == Token(LocationAsc)
    ensures k == SexAsc ==> SexSortParm(Some(Token(k))) == Token(SexDesc)
    ensures k == SexDesc ==> SexSortParm(Some(Token(k))) == Token(SexAsc)
    ensures k in {LocationAsc, LocationDesc} ==> LocationSortParm(Some(LocationSortParm(Some(Token(k))))) == Token(k)
    ensures k in {SexAsc, SexDesc} ==> SexSortParm(Some(SexSortParm(Some(Token(k))))) == Token(k)
  {
  }

  /** What the list page shows: the rows, the two column links and the
      search text echoed back. */
  datatype IndexPage = IndexPage(
    rows: seq<Person>,
    locationSortParm: string,
    sexSortParm: string,
    currentFilter: Option<string>)

  /** The list action over the rows of the People table. */
  function Index(people: seq<Person>, sortOrder: Option<string>, searchString: Option<string>): (page: IndexPage)
    ensures forall p :: p in page.rows <==> p in people && Selected(p, searchString)
    ensures multiset(page.rows) == multiset(Filter(people, searchString))
    ensures ParseSortOrder(sortOrder).Some? ==> Sorted(ParseSortOrder(sortOrder).value, page.rows)
    ensures ParseSortOrder(sortOrder).None? ==> page.rows == Filter(people, searchString)
    ensures page.currentFilter == searchString
    ensures page.locationSortParm == LocationSortParm(sortOrder) && page.sexSortParm == SexSortParm(sortOrder)
  {
    var rows := Order(Filter(people, searchString), sortOrder);
    assert forall p :: p in rows <==> p in multiset(rows);
    IndexPage(rows, LocationSortParm(sortOrder), SexSortParm(sortOrder), searchString)
  }

  /** With a non-empty search text, a row is listed exactly when one of the
      four columns contains it, whatever the sort order. */
  lemma IndexSearch(people: seq<Person>, sortOrder: Option<string>, search: string, p: Person)
    requires search != ""
    ensures p in Index(people, sortOrder, Some(search)).rows <==>
              p in people && (|| Text.Contains(p.name, search)
                              || Text.Contains(p.surname, search)
                              || Text.Contains(p.lastSeenLocation, search)
                              || Text.Contains(p.description, search))
  {
  }

  /** A worked example: a search for "Paris" keeps only the row located in Paris. */
  lemma SearchExample()
    ensures var ana := Person(1, "Ana", "", "", "Paris", true, None, 1);
            var ben := Person(2, "Ben", "", "", "Sofia", false, None, 1);
            Index([ana, ben], None, Some("Paris")).rows == [ana]
  {
    var ana := Person(1, "Ana", "", "", "Paris", true, None, 1);
    var ben := Person(2, "Ben", "", "", "Sofia", false, None, 1);
    assert Text.Contains("Paris", "Paris");
    assert "Sofia"[..5][0] != "Paris"[0];
    assert !Text.Contains("Sofia", "Paris");
    WhereSingle(ana, "Paris");
    WhereSingle(ben, "Paris");
    WhereAppend([ana], [ben], "Paris");
    assert [ana] + [ben] == [ana, ben];
  }

  /** A worked example: the location sort orders "B", "A" both ways, and an
      empty sort token keeps the stored order. */
  lemma SortExample()
    ensures var b := Person(1, "", "", "", "B", true, None, 1);
            var a := Person(2, "", "", "", "A", true, None, 1);
            && Index([b, a], Some("location_asc"), None).rows == [a, b]
            && Index([b, a], Some("location_desc"), None).rows == [b, a]
            && Index([b, a], Some(""), None).rows == [b, a]
  {
    var b := Person(1, "", "", "", "B", true, None, 1);
    var a := Person(2, "", "", "", "A", true, None, 1);
    assert Filter([b, a], None) == [b, a];
    assert [b, a][1..] == [a];
    assert [a][1..] == [];
    assert SortBy(LocationAsc, [a]) == [a];
    assert SortBy(LocationDesc, [a]) == [a];
    assert !Text.LessEq("B", "A");
    assert Text.LessEq("A", "B");
    assert Insert(LocationAsc, b, []) == [b];
    assert SortBy(LocationAsc, [b, a]) == Insert(LocationAsc, b, [a]) == [a, b];
    assert SortBy(LocationDesc, [b, a]) == Insert(LocationDesc, b, [a]) == [b, a];
    assert ParseSortOrder(Some("location_asc")) == Some(LocationAsc);
    assert ParseSortOrder(Some("location_desc")) == Some(LocationDesc);
    assert ParseSortOrder(Some("")) == None;
  }
}
