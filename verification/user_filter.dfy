/** The admin user list's search and filter (`handleSearchAndFilter` in AdminUserList). */
module UserFilter {
  import opened Text
  import opened Sequences

  /** One row of the user list, as returned by the user-list endpoint. */
  datatype User = User(
    id: string,
    firstName: string,
    lastName: string,
    email: string,
    address: string,
    createdAt: string,
    role: string)

  /** The three filter inputs; the empty string means "no constraint". */
  datatype Criteria = Criteria(searchTerm: string, filterRole: string, filterCreatedAt: string)

  const NoCriteria := Criteria("", "", "")

  /** The string the name search runs against: first name, one space, last name. */
  function FullName(u: User): string
  {
    u.firstName + " " + u.lastName
  }

  /** The name search ignores case and looks at the whole full name. */
  predicate NameMatches(u: User, term: string)
  {
    term == "" || Contains(Lower(FullName(u)), Lower(term))
  }

  /** The role filter ignores case. */
  predicate RoleMatches(u: User, term: string)
  {
    term == "" || Contains(Lower(u.role), Lower(term))
  }

  /** The creation-date filter is a case-sensitive search in the raw, unformatted timestamp. */
  predicate CreatedAtMatches(u: User, term: string)
  {
    term == "" || Contains(u.createdAt, term)
  }

  /** A user stays in the list when all three criteria accept it. */
  predicate Keep(u: User, c: Criteria)
  {
    NameMatches(u, c.searchTerm) && RoleMatches(u, c.filterRole) && CreatedAtMatches(u, c.filterCreatedAt)
  }

  /** The displayed list: the users the criteria accept, in their original order. */
  function SearchAndFilter(users: seq<User>, c: Criteria): (r: seq<User>)
    ensures IsSubsequence(r, users)
    ensures forall u :: u in r <==> u in users && Keep(u, c)
    ensures forall u :: multiset(r)[u] == if Keep(u, c) then multiset(users)[u] else 0
    decreases |users|
  {
    if users == [] then
      []
    else
      assert users == [users[0]] + users[1..];
      var rest := SearchAndFilter(users[1..], c);
      if Keep(users[0], c) then [users[0]] + rest else rest
  }

  /** With every criterion empty the displayed list is the whole list, in the same order. */
  lemma {:induction false} NoCriteriaKeepsAll(users: seq<User>)
    ensures SearchAndFilter(users, NoCriteria) == users
    decreases |users|
  {
    if users != [] {
      NoCriteriaKeepsAll(users[1..]);
    }
  }

  /** Filtering by `c2` after `c1` is filtering once by whichever user both accept. */
  lemma {:induction false} FilterTwice(users: seq<User>, c1: Criteria, c2: Criteria)
    requires forall u :: Keep(u, c2) ==> Keep(u, c1)
    ensures SearchAndFilter(SearchAndFilter(users, c1), c2) == SearchAndFilter(users, c2)
    decreases |users|
  {
    if users != [] {
      FilterTwice(users[1..], c1, c2);
    }
  }

  /** Re-filtering the displayed list with the same criteria changes nothing. */
  lemma Idempotent(users: seq<User>, c: Criteria)
    ensures SearchAndFilter(SearchAndFilter(users, c), c) == SearchAndFilter(users, c)
  {
    FilterTwice(users, c, c);
  }

  /** `c2` is `c1` with every criterion replaced by a string that contains the old one. */
  predicate Narrows(c2: Criteria, c1: Criteria)
  {
    Contains(c2.searchTerm, c1.searchTerm) &&
    Contains(c2.filterRole, c1.filterRole) &&
    Contains(c2.filterCreatedAt, c1.filterCreatedAt)
  }

  lemma LowerMatchNarrows(hay: string, t1: string, t2: string)
    requires Contains(t2, t1) && Contains(hay, Lower(t2))
    ensures Contains(hay, Lower(t1))
  {
    LowerKeepsContains(t2, t1);
    ContainsTransitive(hay, Lower(t2), Lower(t1));
  }

  /** A user accepted by narrower criteria is accepted by the wider ones. */
  lemma KeepNarrows(u: User, c1: Criteria, c2: Criteria)
    requires Narrows(c2, c1)
    ensures Keep(u, c2) ==> Keep(u, c1)
  {
    if Keep(u, c2) {
      if c1.searchTerm != "" {
        LowerMatchNarrows(Lower(FullName(u)), c1.searchTerm, c2.searchTerm);
      }
      if c1.filterRole != "" {
        LowerMatchNarrows(Lower(u.role), c1.filterRole, c2.filterRole);
      }
      if c1.filterCreatedAt != "" {
        ContainsTransitive(u.createdAt, c2.filterCreatedAt, c1.filterCreatedAt);
      }
    }
  }

  /** Typing more into any criterion only removes users from the displayed list. */
  lemma NarrowingShrinks(users: seq<User>, c1: Criteria, c2: Criteria)
    requires Narrows(c2, c1)
    ensures SearchAndFilter(users, c2) == SearchAndFilter(SearchAndFilter(users, c1), c2)
    ensures IsSubsequence(SearchAndFilter(users, c2), SearchAndFilter(users, c1))
  {
    forall u | true
      ensures Keep(u, c2) ==> Keep(u, c1)
    {
      KeepNarrows(u, c1, c2);
    }
    FilterTwice(users, c1, c2);
  }

  /** A search term made of the last letter of the first name, the space and the first
      letter of the last name matches: the search runs across the joining space. */
  lemma NameSearchSpansSpace(u: User)
    requires u.firstName != "" && u.lastName != ""
    ensures Keep(u, Criteria([u.firstName[|u.firstName| - 1], ' ', u.lastName[0]], "", ""))
  {
    var name := FullName(u);
    var k := |u.firstName| - 1;
    var term := [u.firstName[k], ' ', u.lastName[0]];
    assert name[k..k + 3] == term;
    assert OccursAt(name, term, k);
    LowerKeepsContains(name, term);
  }

  /** The name search and the role filter do not depend on the case of the term. */
  lemma SearchIgnoresTermCase(u: User, c: Criteria)
    ensures Keep(u, c.(searchTerm := Lower(c.searchTerm))) == Keep(u, c)
    ensures Keep(u, c.(filterRole := Lower(c.filterRole))) == Keep(u, c)
  {
    LowerIdempotent(c.searchTerm);
    LowerIdempotent(c.filterRole);
  }

  /** The name search and the role filter do not depend on the case of the user's data. */
  lemma SearchIgnoresDataCase(u: User, c: Criteria)
    ensures Keep(u.(firstName := Lower(u.firstName), lastName := Lower(u.lastName)), c) == Keep(u, c)
    ensures Keep(u.(role := Lower(u.role)), c) == Keep(u, c)
  {
    var v := u.(firstName := Lower(u.firstName), lastName := Lower(u.lastName));
    assert Lower(FullName(v)) == Lower(FullName(u));
    LowerIdempotent(u.role);
  }

  const Sample := User("1", "An", "Nguyen", "a@x.com", "HN", "2024-01-05T00:00:00Z", "admin")

  /** A one-user list keeps its user exactly when the criteria accept it. */
  lemma FilterSingle(u: User, c: Criteria)
    ensures SearchAndFilter([u], c) == if Keep(u, c) then [u] else []
  {
  }

  /** "an" finds "An Nguyen" whatever the case. */
  lemma SampleNameMatch()
    ensures SearchAndFilter([Sample], Criteria("an", "", "")) == [Sample]
    ensures SearchAndFilter([Sample], Criteria("AN", "ADM", "")) == [Sample]
  {
    assert OccursAt(Lower(FullName(Sample)), "an", 0);
    assert OccursAt(Lower(Sample.role), "adm", 0);
    FilterSingle(Sample, Criteria("an", "", ""));
    FilterSingle(Sample, Criteria("AN", "ADM", ""));
  }

  /** The creation-date filter is case-sensitive: "T" finds the timestamp's time separator... */
  lemma SampleCreatedAtCase()
    ensures SearchAndFilter([Sample], Criteria("", "", "T")) == [Sample]
  {
    assert OccursAt(Sample.createdAt, "T", 10);
    FilterSingle(Sample, Criteria("", "", "T"));
  }

  /** ... while "t" finds nothing. */
  lemma SampleCreatedAtLowerCase()
    ensures SearchAndFilter([Sample], Criteria("", "", "t")) == []
  {
    assert 't' !in Sample.createdAt;
    ContainsChar(Sample.createdAt, 't');
    FilterSingle(Sample, Criteria("", "", "t"));
  }

  /** The only ten-character terms without a `T` that the sample timestamp contains are
      its date part: any occurrence would have to end before the time separator. */
  lemma SampleDateTerms(t: string)
    requires |t| == 10 && 'T' !in t && t != "2024-01-05"
    ensures !Contains(Sample.createdAt, t)
  {
    var hay := Sample.createdAt;
    OccurrenceCovers(hay, t);
    assert hay[10] == 'T';
    assert hay[0..10] == "2024-01-05";
    assert forall i :: OccursAt(hay, t, i) ==> i == 0;
  }

  /** The creation-date filter sees the raw timestamp, not the displayed `DD-MM-YYYY` form;
      and a term naming a different day finds nothing. */
  lemma SampleCreatedAtRaw()
    ensures SearchAndFilter([Sample], Criteria("", "", "05-01-2024")) == []
    ensures SearchAndFilter([Sample], Criteria("", "", "2024-01-06")) == []
  {
    SampleDateTerms("05-01-2024");
    SampleDateTerms("2024-01-06");
    FilterSingle(Sample, Criteria("", "", "05-01-2024"));
    FilterSingle(Sample, Criteria("", "", "2024-01-06"));
  }

  /** The list shows the full name as last name, space, first name, but the search runs on
      first name, space, last name: typing the displayed "Nguyen An" finds nothing. */
  lemma SampleDisplayedNameOrder()
    ensures SearchAndFilter([Sample], Criteria("Nguyen An", "", "")) == []
  {
    var hay, t := Lower(FullName(Sample)), Lower("Nguyen An");
    assert hay == "an nguyen" && t == "nguyen an";
    forall i | 0 <= i
      ensures !OccursAt(hay, t, i)
    {
      if i + |t| <= |hay| {
        assert hay[i..i + |t|][0] != t[0];
      }
    }
    FilterSingle(Sample, Criteria("Nguyen An", "", ""));
  }
}
