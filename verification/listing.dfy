/** `GET /servers`: the rows matching the query-string filters, sorted by one
    whitelisted column and cut into one page. The query parameters arrive as
    strings; PHP truthiness decides which filters apply and PHP's `(int)` cast
    reads the numeric ones. */
module Listing {
  import opened Base
  import opened Numerals
  import opened Schema
  import opened Ordering
  import Controller

  /** The query-string parameters the listing reads, each absent or a string,
      except `page`, which the paginator reads as an integer when it is one. */
  datatype Query = Query(
    q: Option<string>,
    provider: Option<string>,
    status: Option<string>,
    minCpu: Option<string>,
    maxCpu: Option<string>,
    sort: Option<string>,
    order: Option<string>,
    perPage: Option<string>,
    page: Option<int>)

  /** The query with no parameters at all. */
  const NoQuery: Query := Query(None, None, None, None, None, None, None, None, None)

  /** PHP truthiness of a parameter: absent, `""` and `"0"` are false. */
  predicate Truthy(p: Option<string>) {
    p.Some? && p.value != "" && p.value != "0"
  }

  /** `needle` occurs in `hay` as a contiguous run (the `%needle%` pattern),
      searched from the left. */
  predicate Contains(hay: string, needle: string) {
    needle <= hay || (|hay| > 0 && Contains(hay[1..], needle))
  }

  predicate OccursAt(hay: string, needle: string, i: nat)
    requires i + |needle| <= |hay|
  {
    hay[i..i + |needle|] == needle
  }

  /** The search finds `needle` exactly when it occurs at some position. */
  lemma {:induction false} ContainsIff(hay: string, needle: string)
    ensures Contains(hay, needle) <==> exists i | 0 <= i <= |hay| - |needle| :: OccursAt(hay, needle, i)
  {
    if |hay| > 0 {
      ContainsIff(hay[1..], needle);
      if Contains(hay[1..], needle) {
        var i :| 0 <= i <= |hay[1..]| - |needle| && OccursAt(hay[1..], needle, i);
        assert hay[1..][i..i + |needle|] == hay[i + 1..i + 1 + |needle|];
        assert OccursAt(hay, needle, i + 1);
      }
      if exists i | 0 <= i <= |hay| - |needle| :: OccursAt(hay, needle, i) {
        var i :| 0 <= i <= |hay| - |needle| && OccursAt(hay, needle, i);
        if i > 0 {
          assert OccursAt(hay[1..], needle, i - 1);
        } else {
          assert needle <= hay;
        }
      }
    } else if needle <= hay {
      assert OccursAt(hay, needle, 0);
    }
    if needle <= hay {
      assert OccursAt(hay, needle, 0);
    }
  }

  /** The `where` clauses: each filter whose parameter is truthy must hold. */
  predicate Matches(s: Server, q: Query) {
    && (Truthy(q.q) ==> Contains(s.name, q.q.value) || Contains(s.ipAddress, q.q.value))
    && (Truthy(q.provider) ==> ProviderName(s.provider) == q.provider.value)
    && (Truthy(q.status) ==> StatusName(s.status) == q.status.value)
    && (Truthy(q.minCpu) ==> s.cpuCores >= PhpIntCast(q.minCpu.value))
    && (Truthy(q.maxCpu) ==> s.cpuCores <= PhpIntCast(q.maxCpu.value))
  }

  /** The ids of the rows the filters let through. */
  ghost function Matching(db: Db, q: Query): set<nat> {
    set id | id in db.rows && Matches(db.rows[id], q)
  }

  /** The column names `sort` may name, in the order the whitelist lists them. */
  const SortableNames: seq<string> :=
    ["id", "name", "ip_address", "cpu_cores", "ram_mb", "storage_gb", "created_at", "updated_at"]

  function ColumnName(c: Column): string {
    match c
    case IdColumn => "id"
    case NameColumn => "name"
    case IpColumn => "ip_address"
    case CpuColumn => "cpu_cores"
    case RamColumn => "ram_mb"
    case StorageColumn => "storage_gb"
    case CreatedColumn => "created_at"
    case UpdatedColumn => "updated_at"
  }

  /** The sort column: `sort` when it is whitelisted, otherwise `id` (also
      when it is absent). */
  function SortColumn(sort: Option<string>): (c: Column)
    ensures sort.Some? && sort.value in SortableNames ==> ColumnName(c) == sort.value
    ensures sort.None? || sort.value !in SortableNames ==> c == IdColumn
  {
    match sort
    case None => IdColumn
    case Some(s) =>
      if s == "name" then NameColumn
      else if s == "ip_address" then IpColumn
      else if s == "cpu_cores" then CpuColumn
      else if s == "ram_mb" then RamColumn
      else if s == "storage_gb" then StorageColumn
      else if s == "created_at" then CreatedColumn
      else if s == "updated_at" then UpdatedColumn
      else IdColumn
  }

  /** The sort direction: ascending exactly when `order`, lower-cased, is
      `asc`; descending otherwise, and when it is absent. */
  function SortDirection(order: Option<string>): (d: Direction)
    ensures d == Asc <==> order.Some? && Lower(order.value) == "asc"
  {
    match order
    case None => Desc
    case Some(o) => if Lower(o) == "asc" then Asc else Desc
  }

  const DefaultPerPage: int := 15
  const MaxPerPage: int := 100

  /** The page size: `per_page` cast to an integer (15 when absent), then
      clamped to [1, 100]. */
  function PerPage(p: Option<string>): (n: int)
    ensures 1 <= n <= MaxPerPage
    ensures p.None? ==> n == DefaultPerPage
    ensures p.Some? && PhpIntCast(p.value) <= 0 ==> n == 1
    ensures p.Some? && PhpIntCast(p.value) > MaxPerPage ==> n == MaxPerPage
    ensures p.Some? && 1 <= PhpIntCast(p.value) <= MaxPerPage ==> n == PhpIntCast(p.value)
  {
    var requested := if p.None? then DefaultPerPage else PhpIntCast(p.value);
    if requested < 1 then 1 else if requested > MaxPerPage then MaxPerPage else requested
  }

  /** The page the paginator serves: `page` when it is at least 1, else the first. */
  function CurrentPage(page: Option<int>): (n: int)
    ensures n >= 1
    ensures page.Some? && page.value >= 1 ==> n == page.value
    ensures page.None? || page.value < 1 ==> n == 1
  {
    if page.Some? && page.value >= 1 then page.value else 1
  }

  predicate IdsIncreasing(s: seq<Row>) {
    forall i, j | 0 <= i < j < |s| :: s[i].id < s[j].id
  }

  /** The rows of the table with an id below `n`, in id order. */
  function TableRows(rows: map<nat, Server>, n: nat): (r: seq<Row>)
    ensures forall i | 0 <= i < |r| :: r[i].id < n && r[i].id in rows && r[i].server == rows[r[i].id]
    ensures forall id | id < n && id in rows :: Row(id, rows[id]) in r
    ensures IdsIncreasing(r)
  {
    if n == 0 then []
    else
      var before := TableRows(rows, n - 1);
      if n - 1 in rows then before + [Row(n - 1, rows[n - 1])] else before
  }

  /** The rows of `rows` the filters let through, in their original order. */
  function Select(rows: seq<Row>, q: Query): (r: seq<Row>)
    ensures forall x :: x in r <==> x in rows && Matches(x.server, q)
    ensures IdsIncreasing(rows) ==> IdsIncreasing(r)
  {
    if |rows| == 0 then []
    else
      var rest := Select(rows[1..], q);
      assert forall x | x in rest :: x in rows[1..];
      if Matches(rows[0].server, q) then [rows[0]] + rest else rest
  }

  lemma {:induction false} IncreasingCard(s: seq<Row>)
    requires IdsIncreasing(s)
    ensures |set x | x in s :: x.id| == |s|
  {
    if |s| > 0 {
      IncreasingCard(s[1..]);
      var tail := set x | x in s[1..] :: x.id;
      assert (set x | x in s :: x.id) == tail + {s[0].id};
      assert s[0].id !in tail;
    }
  }

  lemma SameMembers(r: seq<Row>, s: seq<Row>)
    requires multiset(r) == multiset(s)
    ensures forall x :: x in r <==> x in s
  {
    forall x ensures x in r <==> x in s {
      assert x in r <==> x in multiset(r);
      assert x in s <==> x in multiset(s);
    }
  }

  /** `x` is a row of the table that the filters let through. */
  ghost predicate Listable(db: Db, q: Query, x: Row) {
    x.id in db.rows && x.server == db.rows[x.id] && Matches(x.server, q)
  }

  lemma SelectedMembers(db: Db, q: Query, selected: seq<Row>)
    requires WellFormed(db) && selected == Select(TableRows(db.rows, db.nextId), q)
    ensures forall x :: x in selected <==> Listable(db, q, x)
  {
    var rows := TableRows(db.rows, db.nextId);
    forall x ensures x in selected <==> Listable(db, q, x) {
      if x in rows {
        var j :| 0 <= j < |rows| && rows[j] == x;
      }
    }
  }

  lemma SelectedCount(db: Db, q: Query, selected: seq<Row>)
    requires WellFormed(db) && selected == Select(TableRows(db.rows, db.nextId), q)
    ensures |selected| == |Matching(db, q)|
  {
    IncreasingCard(selected);
    var ids := set x | x in selected :: x.id;
    forall id | id in Matching(db, q) ensures id in ids {
      assert Row(id, db.rows[id]) in selected;
    }
    assert ids == Matching(db, q);
  }

  /** Every row of the table the filters let through, sorted by the
      normalised column and direction. Rows with equal keys may appear in
      either order. */
  function Listed(db: Db, q: Query): (r: seq<Row>)
    requires WellFormed(db)
    ensures Sorted(r, SortColumn(q.sort), SortDirection(q.order))
    ensures forall x :: x in r <==> Listable(db, q, x)
    ensures |r| == |Matching(db, q)|
  {
    var selected := Select(TableRows(db.rows, db.nextId), q);
    var r := SortBy(selected, SortColumn(q.sort), SortDirection(q.order));
    SameMembers(r, selected);
    SelectedMembers(db, q, selected);
    SelectedCount(db, q, selected);
    r
  }

  /** The run of `s` that starts at `offset` and holds `size` rows, or as
      many as remain. */
  function Window(s: seq<Row>, offset: nat, size: nat): (w: seq<Row>)
    ensures |w| <= size
    ensures |w| > 0 ==> offset + |w| <= |s| && w == s[offset..offset + |w|]
    ensures offset + size <= |s| ==> |w| == size
    ensures offset < |s| < offset + size ==> offset + |w| == |s|
    ensures offset >= |s| ==> |w| == 0
  {
    if offset >= |s| then []
    else if offset + size <= |s| then s[offset..offset + size]
    else s[offset..]
  }

  /** `lastPage`: the number of pages, at least one. */
  function LastPage(total: nat, perPage: int): (n: int)
    requires perPage >= 1
    ensures n >= 1
    ensures total <= n * perPage
    ensures total > 0 ==> (n - 1) * perPage < total
    ensures total == 0 ==> n == 1
  {
    if total == 0 then 1
    else
      var n := (total - 1) / perPage + 1;
      assert (n - 1) * perPage <= total - 1 < n * perPage by {
        DivBounds(total - 1, perPage);
      }
      n
  }

  /** No smaller page count holds every row: `lastPage` is the least page
      count of at least one that leaves no row out. */
  lemma LastPageSmallest(total: nat, perPage: int, m: int)
    requires perPage >= 1 && m >= 1 && total <= m * perPage
    ensures LastPage(total, perPage) <= m
  {
    var n := LastPage(total, perPage);
    if n > m {
      MulMono(m, n - 1, perPage);
    }
  }

  lemma DivBounds(a: nat, b: int)
    requires b >= 1
    ensures (a / b) * b <= a < (a / b + 1) * b
  {
  }

  /** One page of the listing, as the paginator reports it. */
  datatype Page = Page(items: seq<Row>, total: nat, perPage: int, currentPage: int, lastPage: int)

  /** Where page `current` starts in the listing: the rows of the pages
      before it. */
  function Offset(current: int, perPage: int): (k: nat)
  {
    if current >= 1 && perPage >= 1 then (current - 1) * perPage else 0
  }

  /** `paginate`: page `current` of `listed`, `perPage` rows to a page. */
  function Paginate(listed: seq<Row>, perPage: int, current: int): (r: Page)
    requires perPage >= 1 && current >= 1
    ensures r.total == |listed| && r.perPage == perPage && r.currentPage == current
    ensures r.lastPage == LastPage(r.total, perPage)
    ensures |r.items| <= perPage
    ensures |r.items| > 0 ==>
              var k := Offset(current, perPage);
              k + |r.items| <= |listed| && r.items == listed[k..k + |r.items|]
    ensures current < r.lastPage ==> |r.items| == perPage
    ensures current > r.lastPage ==> |r.items| == 0
    ensures current == r.lastPage && r.total > 0 ==>
              |r.items| == r.total - Offset(r.lastPage, perPage)
  {
    var total := |listed|;
    var last := LastPage(total, perPage);
    var offset := Offset(current, perPage);
    var items := Window(listed, offset, perPage);
    assert current < last ==> offset + perPage <= total by {
      if current < last {
        MulMono(current, last - 1, perPage);
      }
    }
    assert current > last ==> offset >= total by {
      if current > last {
        MulMono(last, current - 1, perPage);
      }
    }
    Page(items, total, perPage, current, last)
  }

  lemma MulMono(a: int, b: int, k: int)
    requires a <= b && k >= 0
    ensures a * k <= b * k
  {
  }

  lemma SliceSorted(s: seq<Row>, k: nat, n: nat, c: Column, d: Direction)
    requires k + n <= |s| && Sorted(s, c, d)
    ensures Sorted(s[k..k + n], c, d)
  {
    var w := s[k..k + n];
    forall i, j | 0 <= i < j < |w| ensures Precedes(w[i], w[j], c, d) {
      assert w[i] == s[k + i] && w[j] == s[k + j];
    }
  }

  /** A page of a sorted listing is sorted and holds only rows of the listing. */
  lemma PageOfSorted(listed: seq<Row>, r: Page, c: Column, d: Direction)
    requires r.perPage >= 1 && r.currentPage >= 1
    requires r == Paginate(listed, r.perPage, r.currentPage) && Sorted(listed, c, d)
    ensures Sorted(r.items, c, d)
    ensures forall i | 0 <= i < |r.items| :: r.items[i] in listed
  {
    if |r.items| > 0 {
      var k := Offset(r.currentPage, r.perPage);
      SliceSorted(listed, k, |r.items|, c, d);
      assert forall i | 0 <= i < |r.items| :: r.items[i] == listed[k + i];
    }
  }

  /** `index`: filter, sort by one column, then serve the requested page of
      the sorted rows. `total` counts every matching row, not the page. */
  function Index(db: Db, q: Query): (r: Page)
    requires WellFormed(db)
    ensures r.total == |Matching(db, q)|
    ensures 1 <= r.perPage <= MaxPerPage && r.perPage == PerPage(q.perPage)
    ensures r.currentPage == CurrentPage(q.page) && r.lastPage == LastPage(r.total, r.perPage)
    ensures |r.items| <= r.perPage
  {
    Paginate(Listed(db, q), PerPage(q.perPage), CurrentPage(q.page))
  }

  /** A page is the run of the sorted listing that starts after the rows of
      the pages before it; every page before the last is full and every page
      past the last is empty. */
  lemma IndexSlice(db: Db, q: Query)
    requires WellFormed(db)
    ensures var r := Index(db, q);
            && (|r.items| > 0 ==>
                  var k := Offset(r.currentPage, r.perPage);
                  k + |r.items| <= |Listed(db, q)| && r.items == Listed(db, q)[k..k + |r.items|])
            && (r.currentPage < r.lastPage ==> |r.items| == r.perPage)
            && (r.currentPage > r.lastPage ==> |r.items| == 0)
  {
    IndexPaged(db, q, q.page);
    assert q.(page := q.page) == q;
  }

  /** Every row on a page is a stored row that passes every filter, and the
      page is in the requested order. */
  lemma IndexItems(db: Db, q: Query)
    requires WellFormed(db)
    ensures var items := Index(db, q).items;
            && (forall i | 0 <= i < |items| :: Listable(db, q, items[i]))
            && Sorted(items, SortColumn(q.sort), SortDirection(q.order))
  {
    var listed := Listed(db, q);
    PageOfSorted(listed, Index(db, q), SortColumn(q.sort), SortDirection(q.order));
  }

  /** An order the database may return for the query on one request: the
      listable rows, each once, sorted by the requested column and direction.
      Rows with equal keys may be arranged differently on every request. */
  ghost predicate DbOrder(db: Db, q: Query, s: seq<Row>) {
    && WellFormed(db)
    && Sorted(s, SortColumn(q.sort), SortDirection(q.order))
    && multiset(s) == multiset(Listed(db, q))
  }

  /** No two different listable rows tie on the requested column. */
  ghost predicate KeysDistinct(db: Db, q: Query) {
    forall x, y | Listable(db, q, x) && Listable(db, q, y)
                  && Precedes(x, y, SortColumn(q.sort), SortDirection(q.order))
                  && Precedes(y, x, SortColumn(q.sort), SortDirection(q.order)) :: x == y
  }

  /** Without ties the database has only one order to give: the listing. */
  lemma OnlyOrder(db: Db, q: Query, s: seq<Row>)
    requires DbOrder(db, q, s) && KeysDistinct(db, q)
    ensures s == Listed(db, q)
  {
    SortedUnique(Listed(db, q), s, SortColumn(q.sort), SortDirection(q.order));
  }

  /** Sorting by `id` never ties, and neither does sorting by `ip_address`
      while addresses are unique. */
  lemma DistinctKeyColumns(db: Db, q: Query)
    requires WellFormed(db)
    requires SortColumn(q.sort) == IdColumn || (SortColumn(q.sort) == IpColumn && UniqueIp(db.rows))
    ensures KeysDistinct(db, q)
  {
    var c, d := SortColumn(q.sort), SortDirection(q.order);
    forall x, y | Listable(db, q, x) && Listable(db, q, y) && Precedes(x, y, c, d) && Precedes(y, x, c, d)
      ensures x == y
    {
      if c == IpColumn {
        if d == Asc {
          TextLeAntisym(x.server.ipAddress, y.server.ipAddress);
        } else {
          TextLeAntisym(y.server.ipAddress, x.server.ipAddress);
        }
      }
    }
  }

  /** Every matching row is served on some page when no two listable rows
      tie: each page request sorts afresh (`orders(p)` is what the database
      returns when page `p` is asked for), and the row is on the page its
      position in the one possible order falls on. */
  lemma EveryMatchOnSomePage(db: Db, q: Query, id: nat, orders: int -> seq<Row>)
    requires WellFormed(db) && id in db.rows && Matches(db.rows[id], q) && KeysDistinct(db, q)
    requires forall p :: DbOrder(db, q, orders(p))
    ensures exists p: int | p >= 1 ::
              && Row(id, db.rows[id]) in Paginate(orders(p), PerPage(q.perPage), p).items
              && Row(id, db.rows[id]) in Index(db, q.(page := Some(p))).items
  {
    var x := Row(id, db.rows[id]);
    var k := PositionOf(db, q, x);
    var p := OnItsPage(Listed(db, q), PerPage(q.perPage), k);
    OnlyOrder(db, q, orders(p));
    IndexPaged(db, q, Some(p));
    assert x in Index(db, q.(page := Some(p))).items;
  }

  /** Where a listable row sits in the sorted listing. */
  lemma PositionOf(db: Db, q: Query, x: Row) returns (k: nat)
    requires WellFormed(db) && Listable(db, q, x)
    ensures k < |Listed(db, q)| && Listed(db, q)[k] == x
  {
    var listed := Listed(db, q);
    assert x in listed;
    k :| 0 <= k < |listed| && listed[k] == x;
  }

  /** When no two listable rows tie, whatever order the database returns on
      a request is the listing, so the page parameter only chooses which page
      of that one listing is served. */
  lemma IndexOfPage(db: Db, q: Query, page: Option<int>, s: seq<Row>)
    requires DbOrder(db, q, s) && KeysDistinct(db, q)
    ensures Index(db, q.(page := page)) == Paginate(s, PerPage(q.perPage), CurrentPage(page))
  {
    OnlyOrder(db, q, s);
    IndexPaged(db, q, page);
  }

  lemma IndexPaged(db: Db, q: Query, page: Option<int>)
    requires WellFormed(db)
    ensures Index(db, q.(page := page)) == Paginate(Listed(db, q), PerPage(q.perPage), CurrentPage(page))
  {
    ListedIgnoresPage(db, q, page);
  }

  lemma ListedIgnoresPage(db: Db, q: Query, page: Option<int>)
    requires WellFormed(db)
    ensures Listed(db, q.(page := page)) == Listed(db, q)
  {
    SelectSame(TableRows(db.rows, db.nextId), q, q.(page := page));
  }

  /** Position `k` of a listing falls on page `k / perPage + 1`. */
  lemma OnItsPage(listed: seq<Row>, perPage: int, k: nat) returns (p: int)
    requires perPage >= 1 && k < |listed|
    ensures p >= 1 && listed[k] in Paginate(listed, perPage, p).items
  {
    p := k / perPage + 1;
    var r := Paginate(listed, perPage, p);
    DivBounds(k, perPage);
    var offset := Offset(p, perPage);
    assert offset <= k < offset + perPage;
    assert offset + perPage <= |listed| || offset < |listed| < offset + perPage;
    assert 0 <= k - offset < |r.items|;
    assert r.items[k - offset] == listed[k];
  }

  /** Whatever orders the database returns for `q` and for `q'`, the two
      requests are served the same page. */
  ghost predicate ServedAlike(db: Db, q: Query, q': Query) {
    forall s, s' | DbOrder(db, q, s) && DbOrder(db, q', s') ::
      Paginate(s, PerPage(q.perPage), CurrentPage(q.page)) == Paginate(s', PerPage(q'.perPage), CurrentPage(q'.page))
  }

  /** Two queries with the same filters, column, direction, page size and
      page are served the same page of the listing. The database serves them
      the same page too when no two matching rows tie; with ties, each request
      may arrange the tied rows its own way. */
  lemma SameIndex(db: Db, q: Query, q': Query)
    requires WellFormed(db)
    requires forall s: Server :: Matches(s, q) == Matches(s, q')
    requires SortColumn(q.sort) == SortColumn(q'.sort) && SortDirection(q.order) == SortDirection(q'.order)
    requires PerPage(q.perPage) == PerPage(q'.perPage) && CurrentPage(q.page) == CurrentPage(q'.page)
    ensures Index(db, q) == Index(db, q')
    ensures KeysDistinct(db, q) ==> ServedAlike(db, q, q')
  {
    SelectSame(TableRows(db.rows, db.nextId), q, q');
    assert Listed(db, q) == Listed(db, q');
    if KeysDistinct(db, q) {
      assert KeysDistinct(db, q') by {
        forall x | Listable(db, q', x) ensures Listable(db, q, x) {
          assert Matches(x.server, q) == Matches(x.server, q');
        }
      }
      forall s, s' | DbOrder(db, q, s) && DbOrder(db, q', s')
        ensures Paginate(s, PerPage(q.perPage), CurrentPage(q.page)) == Paginate(s', PerPage(q'.perPage), CurrentPage(q'.page))
      {
        OnlyOrder(db, q, s);
        OnlyOrder(db, q', s');
      }
    }
  }

  /** A `sort` outside the whitelist lists exactly what `sort=id` lists, and
      so does leaving it out. Ids never tie, so the database serves the same
      page for all three. */
  lemma UnknownSortIsId(db: Db, q: Query, s: string)
    requires WellFormed(db) && s !in SortableNames
    ensures Index(db, q.(sort := Some(s))) == Index(db, q.(sort := Some("id")))
    ensures Index(db, q.(sort := None)) == Index(db, q.(sort := Some("id")))
    ensures ServedAlike(db, q.(sort := Some(s)), q.(sort := Some("id")))
    ensures ServedAlike(db, q.(sort := None), q.(sort := Some("id")))
  {
    DistinctKeyColumns(db, q.(sort := Some(s)));
    DistinctKeyColumns(db, q.(sort := None));
    SameIndex(db, q.(sort := Some(s)), q.(sort := Some("id")));
    SameIndex(db, q.(sort := None), q.(sort := Some("id")));
  }

  /** A falsy filter parameter (`""` or `"0"`) constrains nothing: the page is
      the one served without it, and so is the database's page when no two
      matching rows tie. */
  lemma FalsyFiltersIgnored(db: Db, q: Query, q': Query)
    requires WellFormed(db)
    requires q'.sort == q.sort && q'.order == q.order && q'.perPage == q.perPage && q'.page == q.page
    requires Truthy(q.q) == Truthy(q'.q) && (Truthy(q.q) ==> q.q == q'.q)
    requires Truthy(q.provider) == Truthy(q'.provider) && (Truthy(q.provider) ==> q.provider == q'.provider)
    requires Truthy(q.status) == Truthy(q'.status) && (Truthy(q.status) ==> q.status == q'.status)
    requires Truthy(q.minCpu) == Truthy(q'.minCpu) && (Truthy(q.minCpu) ==> q.minCpu == q'.minCpu)
    requires Truthy(q.maxCpu) == Truthy(q'.maxCpu) && (Truthy(q.maxCpu) ==> q.maxCpu == q'.maxCpu)
    ensures Index(db, q) == Index(db, q')
    ensures KeysDistinct(db, q) ==> ServedAlike(db, q, q')
  {
    SameIndex(db, q, q');
  }

  lemma {:induction false} SelectSame(rows: seq<Row>, q: Query, q': Query)
    requires forall s: Server :: Matches(s, q) == Matches(s, q')
    ensures Select(rows, q) == Select(rows, q')
  {
    if |rows| > 0 {
      SelectSame(rows[1..], q, q');
    }
  }

  /** A `max_cpu` that is truthy but does not start like a number casts to 0,
      and no stored row has fewer than one core: nothing is listed. */
  lemma NonNumericMaxCpuListsNothing(db: Db, q: Query)
    requires Controller.Valid(db)
    requires q.maxCpu.Some? && |q.maxCpu.value| > 0
    requires var c := q.maxCpu.value[0];
             !IsDigit(c) && c != '-' && c != '+' && !IsPhpNumericSpace(c)
    ensures Index(db, q).total == 0 && Index(db, q).items == []
  {
    var s := q.maxCpu.value;
    assert DropWhile(s, IsPhpNumericSpace) == s;
    assert PhpIntCast(s) == 0;
    assert s != "0";
    assert Matching(db, q) == {} by {
      forall id | id in db.rows ensures !Matches(db.rows[id], q) {
        assert Controller.WithinRules(db.rows[id]);
      }
    }
  }
}
