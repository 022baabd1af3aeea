/** The state of the server list page and the handlers that change it: the
    five filter inputs, the sort headers, the row checkboxes and the header
    checkbox, and the page buttons. The request the page sends is the state
    read as query-string parameters. */
module IndexPage {
  import opened Base
  import opened Numerals
  import opened Schema
  import opened Ordering
  import Listing
  import Pagination

  /** The filter inputs, each holding the text its input shows. */
  datatype Filters = Filters(q: string, provider: string, status: string, minCpu: string, maxCpu: string)

  /** The `name` attribute of the input that fired a change. */
  datatype FilterName = Search | ProviderFilter | StatusFilter | MinCpuFilter | MaxCpuFilter

  const EmptyFilters: Filters := Filters("", "", "", "", "")

  function Get(f: Filters, name: FilterName): string {
    match name
    case Search => f.q
    case ProviderFilter => f.provider
    case StatusFilter => f.status
    case MinCpuFilter => f.minCpu
    case MaxCpuFilter => f.maxCpu
  }

  /** `{ ...prev, [name]: value }` */
  function SetFilter(f: Filters, name: FilterName, value: string): (r: Filters)
    ensures Get(r, name) == value
    ensures forall n | n != name :: Get(r, n) == Get(f, n)
  {
    match name
    case Search => f.(q := value)
    case ProviderFilter => f.(provider := value)
    case StatusFilter => f.(status := value)
    case MinCpuFilter => f.(minCpu := value)
    case MaxCpuFilter => f.(maxCpu := value)
  }

  /** The page state: filters, page number, page size, sort column and
      direction, the selected ids and the ids of the rows on screen. */
  datatype View = View(
    filters: Filters,
    page: int,
    perPage: int,
    sort: string,
    order: string,
    selected: seq<nat>,
    shown: seq<nat>)

  /** The state the page starts in. */
  const Initial: View := View(EmptyFilters, 1, 10, "id", "desc", [], [])

  /** The request the page sends: every filter (an empty one as `""`), the
      page size, the page, the sort column and the direction. */
  function QueryOf(v: View): Listing.Query {
    Listing.Query(
      Some(v.filters.q), Some(v.filters.provider), Some(v.filters.status),
      Some(v.filters.minCpu), Some(v.filters.maxCpu),
      Some(v.sort), Some(v.order), Some(Decimal(v.perPage)), Some(v.page))
  }

  // ---------------------------------------------------------------------
  // Filters

  /** A decimal numeral with an optional fraction: `12`, `12.5` or `.5`. */
  predicate Mantissa(m: string) {
    var i := SpanLength(m, IsDigit);
    (0 < i == |m|) || (i < |m| - 1 && m[i] == '.' && AllDigits(m[i + 1..]))
  }

  /** JavaScript's `value < 0` for the text of a number input: a minus sign
      before a numeral that is not zero. */
  predicate BelowZero(v: string) {
    && |v| > 1 && v[0] == '-' && Mantissa(v[1..])
    && exists k | 1 <= k < |v| :: '1' <= v[k] <= '9'
  }

  /** The text of an integer is below zero exactly when the integer is. */
  lemma DecimalBelowZero(n: int)
    ensures BelowZero(Decimal(n)) <==> n < 0
  {
    if n < 0 {
      NatDecimalValue(-n);
      MinusDigitsBelowZero(NatDecimal(-n));
    } else {
      assert IsDigit(NatDecimal(n)[0]);
    }
  }

  /** A minus sign before digits that do not start with `0` is below zero. */
  lemma MinusDigitsBelowZero(ds: string)
    requires |ds| > 0 && AllDigits(ds) && ds[0] != '0'
    ensures BelowZero("-" + ds)
  {
    var v := "-" + ds;
    assert v[1..] == ds;
    SpanOfDigits(ds);
    assert v[1] == ds[0] && IsDigit(ds[0]);
  }

  /** Whether a change of input `name` to `value` is refused: only the two
      CPU bounds are guarded, and only against negative numbers. */
  predicate Refused(name: FilterName, value: string) {
    (name == MinCpuFilter || name == MaxCpuFilter) && BelowZero(value)
  }

  /** `handleFilterChange`: a negative CPU bound is ignored; any other change
      sets that one filter and goes back to page 1. */
  function HandleFilterChange(v: View, name: FilterName, value: string): (r: View)
    ensures Refused(name, value) ==> r == v
    ensures !Refused(name, value) ==>
              && Get(r.filters, name) == value
              && (forall n | n != name :: Get(r.filters, n) == Get(v.filters, n))
              && r.page == 1
              && r.(filters := v.filters, page := v.page) == v
  {
    if Refused(name, value) then v
    else v.(filters := SetFilter(v.filters, name, value), page := 1)
  }

  /** `resetFilters`: every filter emptied, back to page 1. */
  function ResetFilters(v: View): (r: View)
    ensures forall n :: Get(r.filters, n) == ""
    ensures r.page == 1
    ensures r.(filters := v.filters, page := v.page) == v
  {
    v.(filters := EmptyFilters, page := 1)
  }

  /** Neither CPU bound holds a negative number. */
  predicate CpuBoundsSane(f: Filters) {
    !BelowZero(f.minCpu) && !BelowZero(f.maxCpu)
  }

  /** The guard keeps negative CPU bounds out of the state for good: they are
      absent at the start, and neither handler lets one in. */
  lemma CpuBoundsStaySane(v: View, name: FilterName, value: string)
    requires CpuBoundsSane(v.filters)
    ensures CpuBoundsSane(Initial.filters)
    ensures CpuBoundsSane(HandleFilterChange(v, name, value).filters)
    ensures CpuBoundsSane(ResetFilters(v).filters)
  {
    var r := HandleFilterChange(v, name, value);
    if !Refused(name, value) {
      assert Get(r.filters, MinCpuFilter) == r.filters.minCpu;
      assert Get(r.filters, MaxCpuFilter) == r.filters.maxCpu;
      if name != MinCpuFilter {
        assert Get(r.filters, MinCpuFilter) == Get(v.filters, MinCpuFilter);
      }
      if name != MaxCpuFilter {
        assert Get(r.filters, MaxCpuFilter) == Get(v.filters, MaxCpuFilter);
      }
    }
  }

  /** So when a CPU bound the page holds is an integer, the bound the server
      applies is not negative. */
  lemma CpuBoundNotNegative(f: Filters, n: int)
    requires CpuBoundsSane(f)
    requires f.minCpu == Decimal(n) || f.maxCpu == Decimal(n)
    ensures PhpIntCast(Decimal(n)) >= 0
  {
    DecimalBelowZero(n);
    PhpCastDecimal(n);
  }

  /** After a reset the request filters nothing: the listing counts every
      stored row. */
  lemma ResetListsEverything(db: Db, v: View)
    requires WellFormed(db)
    ensures Listing.Index(db, QueryOf(ResetFilters(v))).total == |db.rows|
  {
    var q := QueryOf(ResetFilters(v));
    assert Listing.Matching(db, q) == db.rows.Keys;
    assert |db.rows.Keys| == |db.rows|;
  }

  // ---------------------------------------------------------------------
  // Sorting

  /** The columns whose headers can be clicked. */
  const HeaderFields: seq<string> := ["name", "cpu_cores"]

  /** `changeSort(field)`: clicking the current column flips the direction;
      clicking another column sorts by it ascending. */
  function ChangeSort(v: View, field: string): (r: View)
    ensures v.sort == field ==> r.sort == field && (r.order == "desc" <==> v.order == "asc")
    ensures v.sort == field ==> r.order == "desc" || r.order == "asc"
    ensures v.sort != field ==> r.sort == field && r.order == "asc"
    ensures r.(sort := v.sort, order := v.order) == v
  {
    if v.sort == field then v.(order := if v.order == "asc" then "desc" else "asc")
    else v.(sort := field, order := "asc")
  }

  /** The sort the page holds is one the server understands. */
  predicate SortSane(v: View) {
    v.sort in Listing.SortableNames && (v.order == "asc" || v.order == "desc")
  }

  /** Clicking the same header twice restores the direction; clicking a new
      header twice sorts by it descending. */
  lemma ChangeSortTwice(v: View, field: string)
    requires v.order == "asc" || v.order == "desc"
    ensures v.sort == field ==> ChangeSort(ChangeSort(v, field), field) == v
    ensures v.sort != field ==> ChangeSort(ChangeSort(v, field), field) == v.(sort := field, order := "desc")
  {
  }

  /** The page starts with a sort the server understands, and clicking a
      header keeps it so. */
  lemma SortStaysSane(v: View, field: string)
    requires SortSane(v) && field in HeaderFields
    ensures SortSane(Initial)
    ensures SortSane(ChangeSort(v, field))
  {
  }

  /** The server sorts the way the page says: by the named column, ascending
      exactly when the page says `asc`. */
  lemma SortHonoured(v: View)
    requires SortSane(v)
    ensures Listing.ColumnName(Listing.SortColumn(QueryOf(v).sort)) == v.sort
    ensures Listing.SortDirection(QueryOf(v).order) == Asc <==> v.order == "asc"
  {
    assert Lower("asc") == "asc";
    assert Lower("desc") == "desc";
  }

  // ---------------------------------------------------------------------
  // Selection

  predicate NoDup(s: seq<nat>) {
    forall i, j | 0 <= i < j < |s| :: s[i] != s[j]
  }

  /** `prev.filter((sid) => sid !== id)` */
  function Remove(s: seq<nat>, id: nat): (r: seq<nat>)
    ensures forall x :: x in r <==> x in s && x != id
    ensures NoDup(s) ==> NoDup(r)
  {
    if |s| == 0 then []
    else
      var rest := Remove(s[1..], id);
      if s[0] == id then rest
      else
        assert NoDup(s) ==> NoDup(s[1..]) && s[0] !in s[1..];
        ConsNoDup(s[0], rest);
        [s[0]] + rest
  }

  lemma ConsNoDup(x: nat, s: seq<nat>)
    ensures NoDup(s) && x !in s ==> NoDup([x] + s)
  {
    if NoDup(s) && x !in s {
      var r := [x] + s;
      forall i, j | 0 <= i < j < |r| ensures r[i] != r[j] {
        assert r[j] == s[j - 1];
        if i > 0 {
          assert r[i] == s[i - 1];
        }
      }
    }
  }

  /** `toggleSelect(id)`: the id changes membership, every other id keeps
      it, and a selection without repeats stays without repeats. */
  function ToggleSelect(sel: seq<nat>, id: nat): (r: seq<nat>)
    ensures id in r <==> id !in sel
    ensures forall x | x != id :: x in r <==> x in sel
    ensures NoDup(sel) ==> NoDup(r)
  {
    if id in sel then Remove(sel, id) else sel + [id]
  }

  /** Toggling an id twice gives back the same selected ids. */
  lemma ToggleSelectTwice(sel: seq<nat>, id: nat)
    ensures forall x :: x in ToggleSelect(ToggleSelect(sel, id), id) <==> x in sel
  {
  }

  /** The header checkbox as the page draws it: ticked when as many ids are
      selected as there are rows on screen, and there are some. */
  predicate HeaderCheckedAsWritten(sel: seq<nat>, shown: seq<nat>) {
    |sel| == |shown| && |shown| > 0
  }

  /** `toggleSelectAll` as written: it compares the number of selected ids
      with the number of rows on screen, not the ids themselves. */
  function ToggleSelectAllAsWritten(sel: seq<nat>, shown: seq<nat>): (r: seq<nat>)
    ensures |sel| == |shown| ==> r == []
    ensures |sel| != |shown| ==> r == shown
  {
    if |sel| == |shown| then [] else shown
  }

  /** Every row on screen is selected (and there is one). */
  predicate AllShownSelected(sel: seq<nat>, shown: seq<nat>) {
    |shown| > 0 && forall i | 0 <= i < |shown| :: shown[i] in sel
  }

  /** The selection survives paging, so it can hold ids that are not on
      screen. Selecting id 7 and moving to a page that shows only id 3 ticks
      the header box; clicking it then clears the selection, and row 3 is
      never selected. */
  lemma SelectAllMissesPage()
    ensures HeaderCheckedAsWritten([7], [3]) && !AllShownSelected([7], [3])
    ensures ToggleSelectAllAsWritten([7], [3]) == []
    ensures !AllShownSelected(ToggleSelectAllAsWritten([7], [3]), [3])
  {
    assert [3][0] == 3 && 3 !in [7] && 3 !in [];
  }

  /** The header checkbox as intended: ticked when every row on screen is
      selected. */
  predicate HeaderChecked(sel: seq<nat>, shown: seq<nat>) {
    AllShownSelected(sel, shown)
  }

  /** `toggleSelectAll` as intended: clear the selection when every row on
      screen is selected, otherwise select exactly the rows on screen. */
  function ToggleSelectAll(sel: seq<nat>, shown: seq<nat>): (r: seq<nat>)
    ensures AllShownSelected(sel, shown) ==> r == []
    ensures !AllShownSelected(sel, shown) ==> r == shown
  {
    if AllShownSelected(sel, shown) then [] else shown
  }

  /** Clicking the header box flips it, whatever the selection held before. */
  lemma ToggleSelectAllFlips(sel: seq<nat>, shown: seq<nat>)
    ensures |shown| > 0 ==>
              (HeaderChecked(ToggleSelectAll(sel, shown), shown) <==> !HeaderChecked(sel, shown))
  {
    if !AllShownSelected(sel, shown) {
      assert forall i | 0 <= i < |shown| :: shown[i] in shown;
    } else {
      assert shown[0] !in [];
    }
  }

  /** A sequence without repeats holds as many ids as it is long. */
  lemma {:induction false} DistinctCount(s: seq<nat>)
    requires NoDup(s)
    ensures |Items(s)| == |s|
  {
    if |s| > 0 {
      assert NoDup(s[1..]) && s[0] !in s[1..];
      DistinctCount(s[1..]);
      assert s[0] !in Items(s[1..]);
    }
  }

  /** When the selection was made on the rows now on screen (no repeats,
      every selected id shown), counting is as good as comparing: the
      written header box and toggle agree with the intended ones. */
  lemma AsWrittenAgreesOnOnePage(sel: seq<nat>, shown: seq<nat>)
    requires NoDup(sel) && NoDup(shown)
    requires forall x | x in sel :: x in shown
    ensures HeaderCheckedAsWritten(sel, shown) <==> HeaderChecked(sel, shown)
    ensures ToggleSelectAllAsWritten(sel, shown) == ToggleSelectAll(sel, shown)
  {
    var a, b := Items(sel), Items(shown);
    DistinctCount(sel);
    DistinctCount(shown);
    assert a <= b;
    if |sel| == |shown| {
      forall x | x in b ensures x in a {
        if x !in a {
          SubsetCard(a, b - {x});
        }
      }
      forall i | 0 <= i < |shown| ensures shown[i] in sel {
        assert shown[i] in b;
      }
    }
    if AllShownSelected(sel, shown) {
      forall x | x in b ensures x in a {
        var i :| 0 <= i < |shown| && shown[i] == x;
      }
      assert a == b;
    }
  }

  lemma {:induction false} SubsetCard(a: set<nat>, b: set<nat>)
    requires a <= b
    ensures |a| <= |b|
    decreases |b|
  {
    if a != {} {
      var x :| x in a;
      SubsetCard(a - {x}, b - {x});
    }
  }

  /** Clicking the header box with the corrected toggle. The page as written
      calls the length-comparing toggle instead (`ToggleSelectAllAsWritten`). */
  function ClickSelectAll(v: View): (r: View)
    ensures r.selected == ToggleSelectAll(v.selected, v.shown)
    ensures r.(selected := v.selected) == v
    ensures |v.shown| > 0 ==> (HeaderChecked(r.selected, v.shown) <==> !HeaderChecked(v.selected, v.shown))
  {
    ToggleSelectAllFlips(v.selected, v.shown);
    v.(selected := ToggleSelectAll(v.selected, v.shown))
  }

  // ---------------------------------------------------------------------
  // Page buttons

  /** The page buttons for a listing response: `getPaginationRange(page,
      last_page)` starts at page 1, ends at the last page, and has a button
      for the page being shown whenever that page exists. */
  lemma ButtonsForPage(db: Db, q: Listing.Query)
    requires WellFormed(db)
    ensures var p := Listing.Index(db, q);
            var buttons := Pagination.PaginationRange(p.currentPage, p.lastPage);
            && |buttons| > 0
            && buttons[0] == Pagination.Number(1)
            && buttons[|buttons| - 1] == Pagination.Number(p.lastPage)
            && (p.currentPage <= p.lastPage ==> Pagination.Number(p.currentPage) in buttons)
  {
    var p := Listing.Index(db, q);
    assert Pagination.Kept(p.currentPage, p.currentPage, p.lastPage);
  }
}
