/** The concrete repository the base repository's tests are written against:
    `name` is the one sortable field, and the filter stage keeps the records
    whose name contains the filter text, ignoring case. */
module StubRepository {
  import opened Wrappers
  import opened Strings
  import opened Seqs
  import opened Sorting
  import opened BaseRepository

  const SortableFields: set<string> := {"name"}

  /** `item.name.toLowerCase().includes(filter.toLowerCase())`. */
  predicate NameMatches(r: Record, filter: string) {
    Contains(Lower(Field(r, "name")), Lower(filter))
  }

  /** The selector the filter stage hands to `Array.prototype.filter`. */
  function MatchesFilter(filter: string): Record -> bool {
    (r: Record) => NameMatches(r, filter)
  }

  /** The stub's `applyFilter`: no filtering for a `null` or empty filter,
      otherwise the in-order selection of the records whose name matches. */
  function ApplyFilter(items: seq<Record>, filter: Option<string>): (r: seq<Record>)
    ensures filter.None? || filter == Some("") ==> r == items
    ensures filter.Some? && filter.value != "" ==>
              && IsSubsequence(r, items)
              && (forall x :: x in r ==> NameMatches(x, filter.value))
              && (forall x :: x in items && NameMatches(x, filter.value) ==> multiset(r)[x] == multiset(items)[x])
  {
    if filter.None? || filter.value == "" then items
    else
      KeepSelects(items, MatchesFilter(filter.value));
      Keep(items, MatchesFilter(filter.value))
  }

  /** A name matches exactly when the lower-cased filter occurs somewhere in
      the lower-cased name. */
  lemma NameMatchesIff(r: Record, filter: string)
    ensures NameMatches(r, filter) ==> exists i :: OccursAt(Lower(Field(r, "name")), Lower(filter), i)
    ensures (exists i :: OccursAt(Lower(Field(r, "name")), Lower(filter), i)) ==> NameMatches(r, filter)
  {
    ContainsIff(Lower(Field(r, "name")), Lower(filter));
  }

  /** Matching ignores case: filters that agree after lower-casing select the same records. */
  lemma FilterIgnoresCase(items: seq<Record>, f: string, g: string)
    requires Lower(f) == Lower(g)
    ensures ApplyFilter(items, Some(f)) == ApplyFilter(items, Some(g))
  {
    if f != "" && g != "" {
      KeepAgree(items, MatchesFilter(f), MatchesFilter(g));
    }
  }

  /** `find` on the stub repository. */
  function StubFind(items: seq<Record>, input: FindInput): (out: FindOutput)
    ensures out.total <= |items|
    ensures input.filter.None? ==> out.total == |items|
  {
    Find(items, SortableFields, ApplyFilter, input)
  }

  /** A record with just an id and a name, as in the test fixtures. */
  function Rec(id: string, name: string): Record {
    map["id" := id, "name" := name]
  }

  // The fixture names of the repository's tests, checked one at a time.

  /** `'john'` selects every name that starts with "john" in any case of
      its first letter. */
  lemma JohnPrefix(id: string, name: string)
    requires |name| >= 4 && (name[0] == 'j' || name[0] == 'J') && name[1] == 'o' && name[2] == 'h' && name[3] == 'n'
    ensures MatchesFilter("john")(Rec(id, name))
  {
    assert Field(Rec(id, name), "name") == name;
    var hay, needle := Lower(name), Lower("john");
    assert needle == "john" by {
      assert |needle| == 4 && needle[0] == 'j' && needle[1] == 'o' && needle[2] == 'h' && needle[3] == 'n';
    }
    assert hay[..4] == "john" by {
      assert hay[0] == 'j' && hay[1] == 'o' && hay[2] == 'h' && hay[3] == 'n';
    }
    assert IsPrefix(needle, hay);
  }

  /** "John Doe", "john Doe" and "john doe" all match `'john'`. */
  lemma JohnFixtures(id: string)
    ensures MatchesFilter("john")(Rec(id, "John Doe"))
    ensures MatchesFilter("john")(Rec(id, "john Doe"))
    ensures MatchesFilter("john")(Rec(id, "john doe"))
  {
    JohnPrefix(id, "John Doe");
    JohnPrefix(id, "john Doe");
    JohnPrefix(id, "john doe");
  }

  /** `'john'` selects no name without a 'j' or 'J' in it. */
  lemma NoJNoJohn(id: string, name: string)
    requires forall i :: 0 <= i < |name| ==> name[i] != 'j' && name[i] != 'J'
    ensures !MatchesFilter("john")(Rec(id, name))
  {
    assert Field(Rec(id, name), "name") == name;
    assert Lower("john")[0] == 'j';
    NoStartingChar(Lower(name), Lower("john"));
  }

  /** `'john'` does not select "David Doe". */
  lemma DavidIsNotJohn(id: string)
    ensures !MatchesFilter("john")(Rec(id, "David Doe"))
  {
    NoJNoJohn(id, "David Doe");
  }

  /** `'david'` selects every name that starts with "david" in any case
      of its first letter. */
  lemma DavidPrefix(id: string, name: string)
    requires |name| >= 5 && (name[0] == 'd' || name[0] == 'D')
    requires name[1] == 'a' && name[2] == 'v' && name[3] == 'i' && name[4] == 'd'
    ensures MatchesFilter("david")(Rec(id, name))
  {
    assert Field(Rec(id, name), "name") == name;
    var hay, needle := Lower(name), Lower("david");
    assert needle == "david" by {
      assert |needle| == 5 && needle[0] == 'd' && needle[1] == 'a' && needle[2] == 'v' && needle[3] == 'i' && needle[4] == 'd';
    }
    assert hay[..5] == "david" by {
      assert hay[0] == 'd' && hay[1] == 'a' && hay[2] == 'v' && hay[3] == 'i' && hay[4] == 'd';
    }
    assert IsPrefix(needle, hay);
  }

  /** `'david'` selects no eight-character name whose first four
      characters hold no 'd' or 'D': a match would have to start there. */
  lemma NoDavidStart(id: string, name: string)
    requires |name| == 8
    requires name[0] != 'd' && name[1] != 'd' && name[2] != 'd' && name[3] != 'd'
    requires name[0] != 'D' && name[1] != 'D' && name[2] != 'D' && name[3] != 'D'
    ensures !MatchesFilter("david")(Rec(id, name))
  {
    assert Field(Rec(id, name), "name") == name;
    assert |Lower("david")| == 5 && Lower("david")[0] == 'd';
    NoStartingChar(Lower(name), Lower("david"));
  }

  /** `'david'` selects "David Doe" and none of the three spellings of
      "John Doe". */
  lemma DavidFixtures(id: string)
    ensures MatchesFilter("david")(Rec(id, "David Doe"))
    ensures !MatchesFilter("david")(Rec(id, "John Doe"))
    ensures !MatchesFilter("david")(Rec(id, "john Doe"))
    ensures !MatchesFilter("david")(Rec(id, "john doe"))
  {
    DavidPrefix(id, "David Doe");
    NoDavidStart(id, "John Doe");
    NoDavidStart(id, "john Doe");
    NoDavidStart(id, "john doe");
  }

  /** The fixture names in the order JavaScript's `<` puts them. */
  lemma FixtureOrder()
    ensures Less("David Doe", "John Doe")
    ensures Less("John Doe", "john Doe")
    ensures Less("john Doe", "john doe")
  {
  }

  lemma KeepThree<T>(a: T, b: T, c: T, p: T -> bool)
    ensures Keep([a, b, c], p) == (if p(a) then [a] else []) + (if p(b) then [b] else []) + (if p(c) then [c] else [])
  {
    assert [a, b, c][1..] == [b, c] && [b, c][1..] == [c] && [c][1..] == [];
    assert Keep([c], p) == (if p(c) then [c] else []);
  }

  lemma KeepFour<T>(a: T, b: T, c: T, d: T, p: T -> bool)
    ensures Keep([a, b, c, d], p)
         == (if p(a) then [a] else []) + (if p(b) then [b] else []) + (if p(c) then [c] else []) + (if p(d) then [d] else [])
  {
    assert [a, b, c, d][1..] == [b, c, d];
    KeepThree(b, c, d, p);
  }

  /** Of four records, all but the second are selected. */
  lemma KeepAllButSecond<T>(a: T, b: T, c: T, d: T, p: T -> bool)
    requires p(a) && !p(b) && p(c) && p(d)
    ensures Keep([a, b, c, d], p) == [a, c, d]
  {
    KeepFour(a, b, c, d, p);
    assert [a] + [] + [c] + [d] == [a, c, d];
  }

  /** Two records: the second moves ahead exactly when the comparator puts it first. */
  lemma SortTwo<T>(a: T, b: T, key: T -> string, dir: Direction)
    ensures SortBy([a, b], key, dir) == if Precedes(b, a, key, dir) then [b, a] else [a, b]
  {
    assert SortBy([b], key, dir) == [b] by {
      assert [b][1..] == [];
    }
    assert [a, b][0] == a && [a, b][1..] == [b];
    assert SortBy([a, b], key, dir) == Insert(a, [b], key, dir);
    assert [b][1..] == [];
  }

  /** Three records already in order stay in order. */
  lemma SortThreeInOrder<T>(a: T, b: T, c: T, key: T -> string, dir: Direction)
    requires !Precedes(b, a, key, dir) && !Precedes(c, b, key, dir)
    ensures SortBy([a, b, c], key, dir) == [a, b, c]
  {
    assert [a, b, c][1..] == [b, c];
    SortTwo(b, c, key, dir);
    assert Insert(a, [b, c], key, dir) == [a, b, c];
  }

  /** A sequence that fits on one page is the whole of page 1. */
  lemma FirstPageHoldsAll<T>(s: seq<T>, perPage: int)
    requires |s| <= perPage
    ensures ApplyPaginate(s, 1, perPage) == s
  {
    assert ApplyPaginate(s, 1, perPage) == s[0..|s|];
  }

  /** `find` on the stub, from the outcome of each stage. */
  lemma StubFindFromStages(items: seq<Record>, input: FindInput, filtered: seq<Record>, sorted: seq<Record>, page: seq<Record>)
    requires ApplyFilter(items, input.filter) == filtered
    requires ApplySort(filtered, SortableFields, input.sort, input.sortDir) == sorted
    requires ApplyPaginate(sorted, input.page.GetOr(1), input.perPage.GetOr(10)) == page
    ensures StubFind(items, input).items == page && StubFind(items, input).total == |filtered|
  {
    FindPipeline(items, SortableFields, ApplyFilter, input);
  }

  /** With a non-empty filter, the stub's filter stage is the selection by
      `MatchesFilter`. */
  lemma FilterIsKeep(items: seq<Record>, f: string)
    requires f != ""
    ensures ApplyFilter(items, Some(f)) == Keep(items, MatchesFilter(f))
  {
  }

  /** Filter scenario: `find` returns the two matching records, in stored
      order, and counts two. */
  lemma FilterScenario(a: Record, b: Record, c: Record, f: string)
    requires f != ""
    requires MatchesFilter(f)(a) && MatchesFilter(f)(b) && !MatchesFilter(f)(c)
    ensures var out := StubFind([a, b, c], FindInput(Some(1), Some(10), None, None, Some(f)));
            out.items == [a, b] && out.total == 2
  {
    FilterIsKeep([a, b, c], f);
    KeepThree(a, b, c, MatchesFilter(f));
    FirstPageHoldsAll([a, b], 10);
    StubFindFromStages([a, b, c], FindInput(Some(1), Some(10), None, None, Some(f)), [a, b], [a, b], [a, b]);
  }

  /** Filter scenario with one match: `find` returns it alone and counts one. */
  lemma FilterScenarioLast(a: Record, b: Record, c: Record, f: string)
    requires f != ""
    requires !MatchesFilter(f)(a) && !MatchesFilter(f)(b) && MatchesFilter(f)(c)
    ensures var out := StubFind([a, b, c], FindInput(Some(1), Some(10), None, None, Some(f)));
            out.items == [c] && out.total == 1
  {
    FilterIsKeep([a, b, c], f);
    KeepThree(a, b, c, MatchesFilter(f));
    FirstPageHoldsAll([c], 10);
    StubFindFromStages([a, b, c], FindInput(Some(1), Some(10), None, None, Some(f)), [c], [c], [c]);
  }

  /** The fixtures of the filter scenario: `'john'` selects "John Doe" and
      "john doe" but not "David Doe". */
  lemma FilterFixtures()
    ensures MatchesFilter("john")(Rec("1", "John Doe"))
    ensures MatchesFilter("john")(Rec("1", "john doe"))
    ensures !MatchesFilter("john")(Rec("2", "David Doe"))
  {
    JohnFixtures("1");
    DavidIsNotJohn("2");
  }

  /** The sort stage of the sort scenario. */
  lemma SortScenarioStage(a: Record, b: Record)
    requires Less(Field(b, "name"), Field(a, "name"))
    ensures ApplySort([a, b], SortableFields, Some("name"), Some(ASC)) == [b, a]
    ensures ApplySort([a, b], SortableFields, Some("name"), Some(DESC)) == [a, b]
  {
    SortTwo(a, b, FieldOf("name"), Ascending);
    SortTwo(a, b, FieldOf("name"), Descending);
    LessAsymmetric(Field(b, "name"), Field(a, "name"));
  }

  /** Sort scenario, ascending: of two records, the smaller name comes
      first. */
  lemma SortScenarioAscending(a: Record, b: Record)
    requires Less(Field(b, "name"), Field(a, "name"))
    ensures var out := StubFind([a, b], FindInput(Some(1), Some(10), Some("name"), Some(ASC), None));
            out.items == [b, a] && out.total == 2
  {
    SortScenarioStage(a, b);
    FirstPageHoldsAll([b, a], 10);
    StubFindFromStages([a, b], FindInput(Some(1), Some(10), Some("name"), Some(ASC), None), [a, b], [b, a], [b, a]);
  }

  /** Sort scenario, descending: of two records, the larger name comes
      first. */
  lemma SortScenarioDescending(a: Record, b: Record)
    requires Less(Field(b, "name"), Field(a, "name"))
    ensures var out := StubFind([a, b], FindInput(Some(1), Some(10), Some("name"), Some(DESC), None));
            out.items == [a, b] && out.total == 2
  {
    SortScenarioStage(a, b);
    FirstPageHoldsAll([a, b], 10);
    StubFindFromStages([a, b], FindInput(Some(1), Some(10), Some("name"), Some(DESC), None), [a, b], [a, b], [a, b]);
  }

  /** The filter stage of the combined scenario keeps the three matches. */
  lemma CombinedFiltered(r1: Record, r2: Record, r3: Record, r4: Record, f: string)
    requires f != ""
    requires MatchesFilter(f)(r1) && !MatchesFilter(f)(r2) && MatchesFilter(f)(r3) && MatchesFilter(f)(r4)
    ensures ApplyFilter([r1, r2, r3, r4], Some(f)) == [r1, r3, r4]
  {
    FilterIsKeep([r1, r2, r3, r4], f);
    KeepAllButSecond(r1, r2, r3, r4, MatchesFilter(f));
  }

  /** The sort stage of the combined scenario leaves records already in
      ascending name order where they are. */
  lemma CombinedSorted(r1: Record, r3: Record, r4: Record)
    requires !Less(Field(r3, "name"), Field(r1, "name")) && !Less(Field(r4, "name"), Field(r3, "name"))
    ensures ApplySort([r1, r3, r4], SortableFields, Some("name"), Some(ASC)) == [r1, r3, r4]
  {
    SortThreeInOrder(r1, r3, r4, FieldOf("name"), Ascending);
  }

  /** The records of the combined scenario. */
  predicate CombinedRecords(r1: Record, r2: Record, r3: Record, r4: Record, f: string) {
    && f != ""
    && MatchesFilter(f)(r1) && !MatchesFilter(f)(r2) && MatchesFilter(f)(r3) && MatchesFilter(f)(r4)
    && !Less(Field(r3, "name"), Field(r1, "name")) && !Less(Field(r4, "name"), Field(r3, "name"))
  }

  /** Three records, two a page: page 1 holds the first two, page 2 the third. */
  lemma PagesOfThree<T>(a: T, b: T, c: T)
    ensures ApplyPaginate([a, b, c], 1, 2) == [a, b]
    ensures ApplyPaginate([a, b, c], 2, 2) == [c]
  {
    assert ApplyPaginate([a, b, c], 1, 2) == [a, b, c][0..2];
    assert ApplyPaginate([a, b, c], 2, 2) == [a, b, c][2..3];
  }

  /** Combined scenario, page 1: four records, three of which match the
      filter and are already in ascending name order; two per page. Page 1
      holds the first two matches and reports three in total. */
  lemma CombinedScenarioPage1(r1: Record, r2: Record, r3: Record, r4: Record, f: string)
    requires CombinedRecords(r1, r2, r3, r4, f)
    ensures var out := StubFind([r1, r2, r3, r4], FindInput(Some(1), Some(2), Some("name"), Some(ASC), Some(f)));
            out.items == [r1, r3] && out.total == 3
  {
    CombinedFiltered(r1, r2, r3, r4, f);
    CombinedSorted(r1, r3, r4);
    PagesOfThree(r1, r3, r4);
    StubFindFromStages([r1, r2, r3, r4], FindInput(Some(1), Some(2), Some("name"), Some(ASC), Some(f)),
                       [r1, r3, r4], [r1, r3, r4], [r1, r3]);
  }

  /** Combined scenario, page 2: the third match alone, still three in
      total. */
  lemma CombinedScenarioPage2(r1: Record, r2: Record, r3: Record, r4: Record, f: string)
    requires CombinedRecords(r1, r2, r3, r4, f)
    ensures var out := StubFind([r1, r2, r3, r4], FindInput(Some(2), Some(2), Some("name"), Some(ASC), Some(f)));
            out.items == [r4] && out.total == 3
  {
    CombinedFiltered(r1, r2, r3, r4, f);
    CombinedSorted(r1, r3, r4);
    PagesOfThree(r1, r3, r4);
    StubFindFromStages([r1, r2, r3, r4], FindInput(Some(2), Some(2), Some("name"), Some(ASC), Some(f)),
                       [r1, r3, r4], [r1, r3, r4], [r4]);
  }

  /** The filter stage of a query that matches only the second of four records. */
  lemma SecondOfFourFiltered(r1: Record, r2: Record, r3: Record, r4: Record, f: string)
    requires f != ""
    requires !MatchesFilter(f)(r1) && MatchesFilter(f)(r2) && !MatchesFilter(f)(r3) && !MatchesFilter(f)(r4)
    ensures ApplyFilter([r1, r2, r3, r4], Some(f)) == [r2]
  {
    FilterIsKeep([r1, r2, r3, r4], f);
    KeepFour(r1, r2, r3, r4, MatchesFilter(f));
  }

  /** A filter matching only the second of four records, sorted
      descending by name: `find` returns that record alone and counts one. */
  lemma SecondOfFourScenario(r1: Record, r2: Record, r3: Record, r4: Record, f: string)
    requires f != ""
    requires !MatchesFilter(f)(r1) && MatchesFilter(f)(r2) && !MatchesFilter(f)(r3) && !MatchesFilter(f)(r4)
    ensures var out := StubFind([r1, r2, r3, r4], FindInput(Some(1), Some(10), Some("name"), Some(DESC), Some(f)));
            out.items == [r2] && out.total == 1
  {
    SecondOfFourFiltered(r1, r2, r3, r4, f);
    assert SortBy([r2], FieldOf("name"), Descending) == [r2] by {
      assert [r2][1..] == [];
    }
    FirstPageHoldsAll([r2], 10);
    StubFindFromStages([r1, r2, r3, r4], FindInput(Some(1), Some(10), Some("name"), Some(DESC), Some(f)), [r2], [r2], [r2]);
  }

  /** The filter scenario on the repository's fixture. */
  lemma FilterFixture()
    ensures var items := [Rec("1", "John Doe"), Rec("1", "john doe"), Rec("2", "David Doe")];
            var out := StubFind(items, FindInput(Some(1), Some(10), None, None, Some("john")));
            out.items == [Rec("1", "John Doe"), Rec("1", "john doe")] && out.total == 2
  {
    FilterFixtures();
    FilterScenario(Rec("1", "John Doe"), Rec("1", "john doe"), Rec("2", "David Doe"), "john");
  }

  /** The same fixture under the filter `'david'`: "David Doe" alone. */
  lemma FilterDavidFixture()
    ensures var items := [Rec("1", "John Doe"), Rec("1", "john doe"), Rec("2", "David Doe")];
            var out := StubFind(items, FindInput(Some(1), Some(10), None, None, Some("david")));
            out.items == [Rec("2", "David Doe")] && out.total == 1
  {
    DavidFixtures("1");
    DavidFixtures("2");
    FilterScenarioLast(Rec("1", "John Doe"), Rec("1", "john doe"), Rec("2", "David Doe"), "david");
  }

  /** The sort scenario on the repository's fixture: "John Doe" stored
      before "David Doe". */
  lemma SortFixture()
    ensures var items := [Rec("1", "John Doe"), Rec("2", "David Doe")];
            StubFind(items, FindInput(Some(1), Some(10), Some("name"), Some(ASC), None)).items
              == [Rec("2", "David Doe"), Rec("1", "John Doe")]
    ensures var items := [Rec("1", "John Doe"), Rec("2", "David Doe")];
            StubFind(items, FindInput(Some(1), Some(10), Some("name"), Some(DESC), None)).items == items
  {
    FixtureOrder();
    SortScenarioAscending(Rec("1", "John Doe"), Rec("2", "David Doe"));
    SortScenarioDescending(Rec("1", "John Doe"), Rec("2", "David Doe"));
  }

  /** The repository's combined fixture: "John Doe", "David Doe",
      "john Doe", "john doe" under the filter `'john'`. */
  lemma CombinedFixtureRecords()
    ensures CombinedRecords(Rec("1", "John Doe"), Rec("2", "David Doe"), Rec("3", "john Doe"), Rec("4", "john doe"), "john")
  {
    JohnFixtures("1");
    JohnFixtures("3");
    JohnFixtures("4");
    DavidIsNotJohn("2");
    FixtureOrder();
    LessAsymmetric("John Doe", "john Doe");
    LessAsymmetric("john Doe", "john doe");
  }

  /** The combined scenario on the repository's fixture, name ascending,
      two a page: page 1 is ids 1 and 3. */
  lemma CombinedFixturePage1()
    ensures var items := [Rec("1", "John Doe"), Rec("2", "David Doe"), Rec("3", "john Doe"), Rec("4", "john doe")];
            var out := StubFind(items, FindInput(Some(1), Some(2), Some("name"), Some(ASC), Some("john")));
            out.items == [Rec("1", "John Doe"), Rec("3", "john Doe")] && out.total == 3
  {
    CombinedFixtureRecords();
    CombinedScenarioPage1(Rec("1", "John Doe"), Rec("2", "David Doe"), Rec("3", "john Doe"), Rec("4", "john doe"), "john");
  }

  /** The same query, page 2: id 4 alone, still three in total. */
  lemma CombinedFixturePage2()
    ensures var items := [Rec("1", "John Doe"), Rec("2", "David Doe"), Rec("3", "john Doe"), Rec("4", "john doe")];
            var out := StubFind(items, FindInput(Some(2), Some(2), Some("name"), Some(ASC), Some("john")));
            out.items == [Rec("4", "john doe")] && out.total == 3
  {
    CombinedFixtureRecords();
    CombinedScenarioPage2(Rec("1", "John Doe"), Rec("2", "David Doe"), Rec("3", "john Doe"), Rec("4", "john doe"), "john");
  }

  /** The combined fixture under the filter `'david'`, name descending:
      "David Doe" alone, one in total. */
  lemma CombinedFixtureDavid()
    ensures var items := [Rec("1", "John Doe"), Rec("2", "David Doe"), Rec("3", "john Doe"), Rec("4", "john doe")];
            var out := StubFind(items, FindInput(Some(1), Some(10), Some("name"), Some(DESC), Some("david")));
            out.items == [Rec("2", "David Doe")] && out.total == 1
  {
    DavidFixtures("1");
    DavidFixtures("2");
    DavidFixtures("3");
    DavidFixtures("4");
    SecondOfFourScenario(Rec("1", "John Doe"), Rec("2", "David Doe"), Rec("3", "john Doe"), Rec("4", "john doe"), "david");
  }

  /** Ten records, five a page: page 2 is the last five. */
  lemma SecondPageOfTen<T>(items: seq<T>)
    requires |items| == 10
    ensures ApplyPaginate(items, 2, 5) == items[5..10]
  {
  }

  /** Pagination scenario: twenty records, ten a page: page 1 is the first
      ten, and the total is twenty. */
  lemma PaginationScenario(items: seq<Record>)
    requires |items| == 20
    ensures var out := StubFind(items, FindInput(Some(1), Some(10), None, None, None));
            out.items == items[..10] && out.total == 20
  {
    FindUnsorted(items, SortableFields, ApplyFilter, FindInput(Some(1), Some(10), None, None, None));
  }

  /** Twenty records, ten a page: page 3 is empty, not an error, and the
      total is still twenty. */
  lemma PaginationPastEnd(items: seq<Record>)
    requires |items| == 20
    ensures var out := StubFind(items, FindInput(Some(3), Some(10), None, None, None));
            out.items == [] && out.total == 20
  {
    FindUnsorted(items, SortableFields, ApplyFilter, FindInput(Some(3), Some(10), None, None, None));
    PageBeyondEndEmpty(items, 3, 10);
  }
}
