/** The generic in-memory repository: an ordered sequence of records with
    create / update / delete / findById and the `find` query, which filters,
    then sorts, then cuts out one page. State is passed in and returned, so
    an operation that fails leaves the caller's sequence as it was. */
module BaseRepository {
  import opened Wrappers
  import opened Sorting

  /** A stored model: named string fields, always including "id". */
  type Record = r: map<string, string> | "id" in r witness map["id" := ""]

  /** The only error the repository raises: no record has the given id. */
  datatype NotFound = NotFound(id: string)

  /** Record `r` has field `f` and its value is `v` (`r[f] === v`; an absent
      field is `undefined` and equals no string). */
  predicate Holds(r: map<string, string>, f: string, v: string) {
    f in r && r[f] == v
  }

  /** Some stored record has `f` equal to `v`. */
  ghost predicate AnyHolds(items: seq<Record>, f: string, v: string) {
    exists i :: 0 <= i < |items| && Holds(items[i], f, v)
  }

  /** `items[i]` is the first record whose field `f` is `v`. */
  ghost predicate FirstHolds(items: seq<Record>, f: string, v: string, i: int) {
    && 0 <= i < |items|
    && Holds(items[i], f, v)
    && forall j :: 0 <= j < i ==> !Holds(items[j], f, v)
  }

  /** `items.findIndex(item => item[f] === v)`, with -1 as `None`. */
  function IndexOf(items: seq<Record>, f: string, v: string): (r: Option<nat>)
    ensures r.Some? ==> FirstHolds(items, f, v, r.value)
    ensures r.None? <==> !AnyHolds(items, f, v)
    decreases |items|
  {
    if items == [] then None
    else if Holds(items[0], f, v) then Some(0)
    else match IndexOf(items[1..], f, v)
      case None => None
      case Some(i) => Some(i + 1)
  }

  /** `items.find(item => item[f] === v)`, with `undefined` as `None`. */
  function FindFirst(items: seq<Record>, f: string, v: string): (r: Option<Record>)
    ensures r.None? <==> !AnyHolds(items, f, v)
    ensures r.Some? ==> exists i :: FirstHolds(items, f, v, i) && r.value == items[i]
  {
    match IndexOf(items, f, v)
    case None => None
    case Some(i) => Some(items[i])
  }

  /** Appending a record changes `find` only when no earlier record matched. */
  lemma FindFirstAppend(items: seq<Record>, x: Record, f: string, v: string)
    ensures AnyHolds(items, f, v) ==> FindFirst(items + [x], f, v) == FindFirst(items, f, v)
    ensures !AnyHolds(items, f, v) ==> FindFirst(items + [x], f, v) == if Holds(x, f, v) then Some(x) else None
  {
    var all := items + [x];
    assert forall j :: 0 <= j < |items| ==> all[j] == items[j];
    if AnyHolds(items, f, v) {
      assert FindFirst(items, f, v).Some?;
      var i :| FirstHolds(items, f, v, i) && FindFirst(items, f, v).value == items[i];
      assert FirstHolds(all, f, v, i);
      assert FindFirst(all, f, v).Some?;
      var k :| FirstHolds(all, f, v, k) && FindFirst(all, f, v).value == all[k];
      assert Holds(all[i], f, v) && Holds(all[k], f, v);
    } else if Holds(x, f, v) {
      assert FirstHolds(all, f, v, |items|);
      assert FindFirst(all, f, v).Some?;
      var k :| FirstHolds(all, f, v, k) && FindFirst(all, f, v).value == all[k];
      assert forall j :: 0 <= j < |items| ==> !Holds(all[j], f, v);
    } else {
      assert forall j :: 0 <= j < |items| ==> !Holds(all[j], f, v);
      assert all[|items|] == x;
    }
  }

  /** `_get`: the first record with id `id`, or `NotFound`. */
  function Get(items: seq<Record>, id: string): (r: Result<Record, NotFound>)
    ensures r.Err? <==> !AnyHolds(items, "id", id)
    ensures r.Err? ==> r.error == NotFound(id)
    ensures r.Ok? ==> exists i :: FirstHolds(items, "id", id, i) && r.value == items[i]
  {
    match FindFirst(items, "id", id)
    case None => Err(NotFound(id))
    case Some(model) => Ok(model)
  }

  /** `rec` is the shallow merge `{...base, ...patch}`: every field of the
      patch overwrites, every other field of `base` is kept. */
  ghost predicate Merged(rec: map<string, string>, base: map<string, string>, patch: map<string, string>) {
    && rec.Keys == base.Keys + patch.Keys
    && (forall k :: k in patch ==> rec[k] == patch[k])
    && (forall k :: k in base && k !in patch ==> rec[k] == base[k])
  }

  /** `create`: appends `{id: data.id ?? freshId, ...data}` and returns it.
      `freshId` stands for the generated UUID; no uniqueness is checked. */
  function Create(items: seq<Record>, data: map<string, string>, freshId: string): (r: (seq<Record>, Record))
    ensures r.0 == items + [r.1]
    ensures r.1.Keys == data.Keys + {"id"}
    ensures forall k :: k in data ==> r.1[k] == data[k]
    ensures "id" !in data ==> r.1["id"] == freshId
  {
    var item: Record := map["id" := freshId] + data;
    (items + [item], item)
  }

  /** `update`: shallow-merges `patch` into the first record with id `id`. */
  function Update(items: seq<Record>, id: string, patch: map<string, string>): (r: Result<(seq<Record>, Record), NotFound>)
    ensures r.Err? <==> !AnyHolds(items, "id", id)
    ensures r.Err? ==> r.error == NotFound(id)
    ensures r.Ok? ==> exists i :: && FirstHolds(items, "id", id, i)
                                  && Merged(r.value.1, items[i], patch)
                                  && |r.value.0| == |items|
                                  && r.value.0[i] == r.value.1
                                  && (forall j :: 0 <= j < |items| && j != i ==> r.value.0[j] == items[j])
  {
    match Get(items, id)
    case Err(e) => Err(e)
    case Ok(_) =>
      var i := IndexOf(items, "id", id).value;
      var item: Record := items[i] + patch;
      Ok((items[i := item], item))
  }

  /** `delete`: removes the first record with id `id` and answers `true`. */
  function Delete(items: seq<Record>, id: string): (r: Result<(seq<Record>, bool), NotFound>)
    ensures r.Err? <==> !AnyHolds(items, "id", id)
    ensures r.Err? ==> r.error == NotFound(id)
    ensures r.Ok? ==> r.value.1 && |r.value.0| == |items| - 1
    ensures r.Ok? ==> exists i :: FirstHolds(items, "id", id, i) && r.value.0 == items[..i] + items[i + 1..]
  {
    match Get(items, id)
    case Err(e) => Err(e)
    case Ok(_) =>
      var i := IndexOf(items, "id", id).value;
      Ok((items[..i] + items[i + 1..], true))
  }

  /** `findById`: `_get`, then the same lookup once more. */
  function FindById(items: seq<Record>, id: string): (r: Result<Record, NotFound>)
    ensures r.Err? <==> !AnyHolds(items, "id", id)
    ensures r.Err? ==> r.error == NotFound(id)
    ensures r.Ok? ==> exists i :: FirstHolds(items, "id", id, i) && r.value == items[i]
  {
    match Get(items, id)
    case Err(e) => Err(e)
    case Ok(_) => Ok(FindFirst(items, "id", id).value)
  }

  /** The id `create` gives a record built from `data`. */
  function CreatedId(data: map<string, string>, freshId: string): string {
    if "id" in data then data["id"] else freshId
  }

  /** Round trip: a record created under an id no stored record has is what
      `findById` returns for that id. */
  lemma CreateThenFindById(items: seq<Record>, data: map<string, string>, freshId: string)
    requires !AnyHolds(items, "id", CreatedId(data, freshId))
    ensures FindById(Create(items, data, freshId).0, CreatedId(data, freshId))
         == Ok(Create(items, data, freshId).1)
  {
    var (items', item) := Create(items, data, freshId);
    var id := CreatedId(data, freshId);
    assert forall j :: 0 <= j < |items| ==> !Holds(items'[j], "id", id);
    assert FirstHolds(items', "id", id, |items|);
  }

  /** Deleting a freshly created record gives back the sequence from before. */
  lemma DeleteUndoesCreate(items: seq<Record>, data: map<string, string>, freshId: string)
    requires !AnyHolds(items, "id", CreatedId(data, freshId))
    ensures Delete(Create(items, data, freshId).0, CreatedId(data, freshId)) == Ok((items, true))
  {
    var (items', item) := Create(items, data, freshId);
    var id := CreatedId(data, freshId);
    assert forall j :: 0 <= j < |items| ==> !Holds(items'[j], "id", id);
    assert FirstHolds(items', "id", id, |items|);
    var r := Delete(items', id);
    var i :| FirstHolds(items', "id", id, i) && r.value.0 == items'[..i] + items'[i + 1..];
    assert i == |items|;
    assert items'[..i] == items && items'[i + 1..] == [];
    assert r.value.0 == items && r.value.1;
    assert r == Ok((items, true));
  }

  /** After an update that leaves the id alone, `findById` sees the merged record. */
  lemma UpdateThenFindById(items: seq<Record>, id: string, patch: map<string, string>)
    requires AnyHolds(items, "id", id)
    requires "id" in patch ==> patch["id"] == id
    ensures Update(items, id, patch).Ok?
    ensures FindById(Update(items, id, patch).value.0, id) == Ok(Update(items, id, patch).value.1)
  {
    var (items', item) := Update(items, id, patch).value;
    var i :| && FirstHolds(items, "id", id, i)
             && Merged(item, items[i], patch)
             && |items'| == |items|
             && items'[i] == item
             && (forall j :: 0 <= j < |items| && j != i ==> items'[j] == items[j]);
    assert FirstHolds(items', "id", id, i);
    var r := FindById(items', id);
    var m :| FirstHolds(items', "id", id, m) && r.value == items'[m];
    assert Holds(items'[i], "id", id) && Holds(items'[m], "id", id);
  }

  /** How many stored records carry id `id`. */
  function CountId(items: seq<Record>, id: string): nat
    decreases |items|
  {
    if items == [] then 0
    else (if items[0]["id"] == id then 1 else 0) + CountId(items[1..], id)
  }

  lemma {:induction false} CountIdAppend(a: seq<Record>, b: seq<Record>, id: string)
    ensures CountId(a + b, id) == CountId(a, id) + CountId(b, id)
    decreases |a|
  {
    if a == [] {
      assert a + b == b;
    } else {
      assert (a + b)[0] == a[0] && (a + b)[1..] == a[1..] + b;
      CountIdAppend(a[1..], b, id);
    }
  }

  /** A stored id is counted at least once. */
  lemma {:induction false} CountIdPositive(items: seq<Record>, id: string)
    ensures AnyHolds(items, "id", id) <==> CountId(items, id) > 0
    decreases |items|
  {
    if items != [] {
      CountIdPositive(items[1..], id);
      if AnyHolds(items[1..], "id", id) {
        var j :| 0 <= j < |items[1..]| && Holds(items[1..][j], "id", id);
        assert Holds(items[j + 1], "id", id);
      }
      if AnyHolds(items, "id", id) && !Holds(items[0], "id", id) {
        var j :| 0 <= j < |items| && Holds(items[j], "id", id);
        assert Holds(items[1..][j - 1], "id", id);
      }
    }
  }

  /** `delete` removes exactly one of the records carrying the id. */
  lemma DeleteRemovesOne(items: seq<Record>, id: string)
    requires Delete(items, id).Ok?
    ensures CountId(Delete(items, id).value.0, id) == CountId(items, id) - 1
  {
    var r := Delete(items, id);
    var i :| FirstHolds(items, "id", id, i) && r.value.0 == items[..i] + items[i + 1..];
    assert items == items[..i] + ([items[i]] + items[i + 1..]);
    CountIdAppend(items[..i], [items[i]] + items[i + 1..], id);
    CountIdAppend([items[i]], items[i + 1..], id);
    CountIdAppend(items[..i], items[i + 1..], id);
  }

  /** No two records share a value of field `f` (records without `f` are
      ignored). */
  ghost predicate Distinct(items: seq<Record>, f: string) {
    forall i, j :: 0 <= i < j < |items| && f in items[i] && f in items[j] ==> items[i][f] != items[j][f]
  }

  /** Appending a record whose `f` no stored record has keeps `f` distinct. */
  lemma DistinctAppend(items: seq<Record>, u: Record, f: string)
    requires Distinct(items, f)
    requires f in u ==> !AnyHolds(items, f, u[f])
    ensures Distinct(items + [u], f)
  {
    var all := items + [u];
    forall i, j | 0 <= i < j < |all| && f in all[i] && f in all[j]
      ensures all[i][f] != all[j][f]
    {
      if j == |items| {
        assert !Holds(items[i], f, u[f]);
      }
    }
  }

  /** With ids distinct, each id is carried by at most one record. */
  lemma {:induction false} DistinctIdsCountAtMostOne(items: seq<Record>, id: string)
    requires Distinct(items, "id")
    ensures CountId(items, id) <= 1
    decreases |items|
  {
    if items != [] {
      var tail := items[1..];
      assert Distinct(tail, "id") by {
        forall i, j | 0 <= i < j < |tail|
          ensures tail[i]["id"] != tail[j]["id"]
        {
          assert tail[i] == items[i + 1] && tail[j] == items[j + 1];
        }
      }
      DistinctIdsCountAtMostOne(tail, id);
      if items[0]["id"] == id {
        forall j | 0 <= j < |tail|
          ensures !Holds(tail[j], "id", id)
        {
          assert tail[j] == items[j + 1];
        }
        CountIdPositive(tail, id);
      }
    }
  }

  /** With ids distinct, deleting the same id twice fails the second time. */
  lemma DeleteTwiceNotFound(items: seq<Record>, id: string)
    requires Distinct(items, "id")
    requires Delete(items, id).Ok?
    ensures Delete(Delete(items, id).value.0, id) == Err(NotFound(id))
  {
    var items' := Delete(items, id).value.0;
    DistinctIdsCountAtMostOne(items, id);
    DeleteRemovesOne(items, id);
    CountIdPositive(items', id);
  }

  // ---------------------------------------------------------------------
  // The `find` query: filter, then sort, then paginate.

  datatype SortDir = ASC | DESC

  /** The optional query parameters of `find`. */
  datatype FindInput = FindInput(
    page: Option<int>,
    perPage: Option<int>,
    sort: Option<string>,
    sortDir: Option<SortDir>,
    filter: Option<string>)

  /** One page of results, the filtered count and the effective parameters. */
  datatype FindOutput = FindOutput(
    items: seq<Record>,
    perPage: int,
    total: nat,
    currentPage: int,
    sort: Option<string>,
    sortDir: Option<SortDir>,
    filter: Option<string>)

  /** The filter stage each concrete repository supplies. */
  type FilterStage = (seq<Record>, Option<string>) -> seq<Record>

  /** The value of field `f`, with a missing field read as the empty string. */
  function Field(r: Record, f: string): string {
    if f in r then r[f] else ""
  }

  /** The sort key for field `f`. */
  function FieldOf(f: string): Record -> string {
    (r: Record) => Field(r, f)
  }

  /** The sort stage runs: a non-empty field name that is declared sortable. */
  predicate SortActive(sortable: set<string>, sort: Option<string>) {
    sort.Some? && sort.value != "" && sort.value in sortable
  }

  /** Only an explicit `'ASC'` sorts ascending; `'DESC'` and `null` sort descending. */
  function DirectionOf(sortDir: Option<SortDir>): (d: Direction)
    ensures d == Ascending <==> sortDir == Some(ASC)
  {
    if sortDir == Some(ASC) then Ascending else Descending
  }

  /** `applySort`: a copy of `items` stably ordered by the requested field,
      or `items` itself when no sortable field is requested. */
  function ApplySort(items: seq<Record>, sortable: set<string>, sort: Option<string>, sortDir: Option<SortDir>): (r: seq<Record>)
    ensures !SortActive(sortable, sort) ==> r == items
    ensures multiset(r) == multiset(items)
    ensures SortActive(sortable, sort) ==>
              && Sorted(r, FieldOf(sort.value), DirectionOf(sortDir))
              && SameTies(r, items, FieldOf(sort.value))
  {
    if !SortActive(sortable, sort) then items
    else
      var key, dir := FieldOf(sort.value), DirectionOf(sortDir);
      SortBySorted(items, key, dir);
      SortByStable(items, key, dir);
      SortBy(items, key, dir)
  }

  /** The index `Array.prototype.slice` starts or stops at for argument `i`:
      negative values count back from the end, and the result is clamped
      to `0..len`. */
  function SliceIndex(i: int, len: nat): (r: nat)
    ensures r <= len
    ensures 0 <= i ==> r == if i <= len then i else len
    ensures i < 0 ==> r == if len + i < 0 then 0 else len + i
  {
    if i < 0 then (if len + i < 0 then 0 else len + i)
    else if i <= len then i else len
  }

  /** On arguments of one sign, slice indices are monotone and never further
      apart than the arguments. */
  lemma SliceIndexMonotone(i: int, j: int, len: nat)
    requires i <= j < 0 || 0 <= i <= j
    ensures SliceIndex(i, len) <= SliceIndex(j, len)
    ensures SliceIndex(j, len) - SliceIndex(i, len) <= j - i
  {
  }

  /** `w` is the slice of `s` that starts at index `a`. */
  ghost predicate IsWindow<T>(w: seq<T>, s: seq<T>, a: int) {
    0 <= a <= |s| - |w| && w == s[a..a + |w|]
  }

  /** `w` is a contiguous slice of `s`. */
  ghost predicate IsWindowOf<T>(w: seq<T>, s: seq<T>) {
    exists a :: IsWindow(w, s, a)
  }

  function Min(a: int, b: int): int {
    if a <= b then a else b
  }

  /** `s.slice(start, end)`. */
  function Slice<T>(s: seq<T>, start: int, end: int): (r: seq<T>)
    ensures IsWindowOf(r, s)
    ensures start == end ==> r == []
    ensures (0 <= start <= end || start <= end < 0) ==> |r| <= end - start
    ensures 0 <= start <= end ==> r == s[Min(start, |s|)..Min(end, |s|)]
  {
    var from, to := SliceIndex(start, |s|), SliceIndex(end, |s|);
    assert (start <= end < 0 || 0 <= start <= end) ==> to - from <= end - start by {
      if start <= end < 0 || 0 <= start <= end {
        SliceIndexMonotone(start, end, |s|);
      }
    }
    if from < to then
      assert IsWindow(s[from..to], s, from);
      s[from..to]
    else
      assert IsWindow([], s, 0);
      []
  }

  /** Where page `page` starts, for `perPage` records a page: at or after
      0 from page 1 on, and ending at or before 0 on pages 0 and below. */
  function PageStart(page: int, perPage: int): (start: int)
    ensures perPage >= 0 && page >= 1 ==> 0 <= start
    ensures perPage >= 0 && page <= 0 ==> start + perPage <= 0
  {
    assert perPage >= 0 && page <= 0 ==> (page - 1) * perPage + perPage <= 0 by {
      if perPage >= 0 && page <= 0 {
        assert (page - 1) * perPage + perPage == page * perPage;
      }
    }
    (page - 1) * perPage
  }

  /** `applyPaginate`: the window `[(page - 1) * perPage, page * perPage)`,
      computed with JavaScript slice semantics. */
  function ApplyPaginate<T>(items: seq<T>, page: int, perPage: int): (r: seq<T>)
    ensures perPage == 0 ==> r == []
    ensures perPage >= 0 ==> |r| <= perPage
    ensures IsWindowOf(r, items)
    ensures page >= 1 && perPage >= 0 ==>
              var start := PageStart(page, perPage);
              r == items[Min(start, |items|)..Min(start + perPage, |items|)]
  {
    var start := PageStart(page, perPage);
    var r := Slice(items, start, start + perPage);
    assert perPage >= 0 && page <= 0 && start + perPage == 0 ==> r == [] by {
      if perPage >= 0 && page <= 0 && start + perPage == 0 {
        assert SliceIndex(start + perPage, |items|) == 0;
      }
    }
    r
  }

  /** `find`: filter with the repository's filter stage, sort the survivors,
      cut out the requested page. `page` and `perPage` default to 1 and 10. */
  function Find(items: seq<Record>, sortable: set<string>, applyFilter: FilterStage, input: FindInput): (out: FindOutput)
    ensures out.total == |applyFilter(items, input.filter)|
    ensures out.currentPage == (if input.page.Some? then input.page.value else 1)
    ensures out.perPage == (if input.perPage.Some? then input.perPage.value else 10)
    ensures out.sort == input.sort && out.sortDir == input.sortDir && out.filter == input.filter
    ensures out.perPage >= 0 ==> |out.items| <= out.perPage
    ensures multiset(out.items) <= multiset(applyFilter(items, input.filter))
  {
    var page := input.page.GetOr(1);
    var perPage := input.perPage.GetOr(10);
    var filtered := applyFilter(items, input.filter);
    var sorted := ApplySort(filtered, sortable, input.sort, input.sortDir);
    var paginated := ApplyPaginate(sorted, page, perPage);
    WindowMultiset(sorted, paginated);
    FindOutput(paginated, perPage, |filtered|, page, input.sort, input.sortDir, input.filter)
  }

  /** `find` is the composition of its stages: the requested page of the
      sorted, filtered records. */
  lemma FindPipeline(items: seq<Record>, sortable: set<string>, applyFilter: FilterStage, input: FindInput)
    ensures Find(items, sortable, applyFilter, input).items
         == ApplyPaginate(ApplySort(applyFilter(items, input.filter), sortable, input.sort, input.sortDir),
                          input.page.GetOr(1), input.perPage.GetOr(10))
  {
  }

  /** The records `find` returns for a sortable field are in order. */
  lemma FindSorted(items: seq<Record>, sortable: set<string>, applyFilter: FilterStage, input: FindInput)
    requires SortActive(sortable, input.sort)
    ensures Sorted(Find(items, sortable, applyFilter, input).items, FieldOf(input.sort.value), DirectionOf(input.sortDir))
  {
    var sorted := ApplySort(applyFilter(items, input.filter), sortable, input.sort, input.sortDir);
    var page, perPage := input.page.GetOr(1), input.perPage.GetOr(10);
    WindowSorted(sorted, ApplyPaginate(sorted, page, perPage), FieldOf(input.sort.value), DirectionOf(input.sortDir));
  }

  /** Without a sortable field, `find` returns the requested page of the
      filtered records in their stored order. */
  lemma FindUnsorted(items: seq<Record>, sortable: set<string>, applyFilter: FilterStage, input: FindInput)
    requires !SortActive(sortable, input.sort)
    ensures Find(items, sortable, applyFilter, input).items
         == ApplyPaginate(applyFilter(items, input.filter), input.page.GetOr(1), input.perPage.GetOr(10))
  {
  }

  /** A contiguous window holds a sub-multiset of its sequence. */
  lemma WindowMultiset<T>(s: seq<T>, w: seq<T>)
    requires IsWindowOf(w, s)
    ensures multiset(w) <= multiset(s)
  {
    var a :| IsWindow(w, s, a);
    assert s == s[..a] + w + s[a + |w|..];
  }

  /** A contiguous window of a sorted sequence is sorted. */
  lemma WindowSorted<T>(s: seq<T>, w: seq<T>, key: T -> string, dir: Direction)
    requires Sorted(s, key, dir)
    requires IsWindowOf(w, s)
    ensures Sorted(w, key, dir)
  {
    var a :| IsWindow(w, s, a);
    forall i, j | 0 <= i < j < |w|
      ensures !Precedes(w[j], w[i], key, dir)
    {
      assert w[i] == s[a + i] && w[j] == s[a + j];
    }
  }

  /** Paging through a sequence: element `i` is at position `i % perPage`
      of page `i / perPage + 1`. */
  lemma PageLocates<T>(s: seq<T>, perPage: int, i: int)
    requires perPage > 0 && 0 <= i < |s|
    ensures i % perPage < |ApplyPaginate(s, i / perPage + 1, perPage)|
    ensures ApplyPaginate(s, i / perPage + 1, perPage)[i % perPage] == s[i]
  {
    var page := i / perPage + 1;
    var start := PageStart(page, perPage);
    assert start == i - i % perPage;
  }

  /** A page that starts at or past the end is empty: asking beyond the
      last page is not an error. */
  lemma PageBeyondEndEmpty<T>(s: seq<T>, page: int, perPage: int)
    requires page >= 1 && perPage >= 0
    requires PageStart(page, perPage) >= |s|
    ensures ApplyPaginate(s, page, perPage) == []
  {
  }

  /** The pages `1..n` laid end to end. */
  function Pages<T>(s: seq<T>, perPage: int, n: nat): seq<T>
  {
    if n == 0 then [] else Pages(s, perPage, n - 1) + ApplyPaginate(s, n, perPage)
  }

  /** The first `n` pages, concatenated, are the first `n * perPage` elements:
      no element is skipped or repeated from one page to the next. */
  lemma {:induction false} PagesArePrefix<T>(s: seq<T>, perPage: int, n: nat)
    requires perPage >= 0
    ensures Pages(s, perPage, n) == s[..Min(n * perPage, |s|)]
  {
    if n > 0 {
      PagesArePrefix(s, perPage, n - 1);
      var m := PageStart(n, perPage);
      assert m + perPage == n * perPage;
      var a, b := Min(m, |s|), Min(m + perPage, |s|);
      assert ApplyPaginate(s, n, perPage) == s[a..b];
      assert s[..a] + s[a..b] == s[..b];
    }
  }

  /** Paging through `find` visits the filtered, sorted records in order:
      record `i` of the whole result is at position `i % perPage` of page
      `i / perPage + 1`, whatever page was first asked for. */
  lemma FindPageLocates(items: seq<Record>, sortable: set<string>, applyFilter: FilterStage, input: FindInput, i: int)
    requires input.perPage.Some? && input.perPage.value > 0
    requires 0 <= i < |applyFilter(items, input.filter)|
    ensures var k := input.perPage.value;
            var out := Find(items, sortable, applyFilter, input.(page := Some(i / k + 1)));
            i % k < |out.items| &&
            out.items[i % k] == ApplySort(applyFilter(items, input.filter), sortable, input.sort, input.sortDir)[i]
  {
    var k := input.perPage.value;
    var sorted := ApplySort(applyFilter(items, input.filter), sortable, input.sort, input.sortDir);
    var out := Find(items, sortable, applyFilter, input.(page := Some(i / k + 1)));
    assert out.items == ApplyPaginate(sorted, i / k + 1, k);
    PageLocates(sorted, k, i);
  }

  /** `total` counts filtered records and does not depend on the page asked for. */
  lemma TotalIndependentOfPage(items: seq<Record>, sortable: set<string>, applyFilter: FilterStage, input: FindInput, page: Option<int>, perPage: Option<int>)
    ensures Find(items, sortable, applyFilter, input).total
         == Find(items, sortable, applyFilter, input.(page := page, perPage := perPage)).total
  {
  }
}
