/** `getPaginationRange(current, last)` of the server list page: the page
    buttons to show. Page 1, page `last` and every page within two of
    `current` are kept; between two kept pages a single missing page is shown
    after all, and a longer gap becomes one `"..."`. */
module Pagination {
  import opened Base

  /** One entry of the list: a page number, or the `"..."` placeholder. */
  datatype PageItem = Number(n: int) | Dots

  /** How many pages on each side of the current one are always shown. */
  const Delta: int := 2

  /** The first loop's test: the first page, the last page, and the pages
      within `Delta` of the current one. */
  predicate Kept(p: int, current: int, last: int) {
    p == 1 || p == last || (current - Delta <= p && p <= current + Delta)
  }

  predicate Increasing(s: seq<int>) {
    forall a, b | 0 <= a < b < |s| :: s[a] < s[b]
  }

  /** The first loop from `i` on: the kept pages among `i`, ..., `last`, in order. */
  function KeptFrom(i: int, current: int, last: int): (s: seq<int>)
    ensures forall x :: x in s <==> i <= x <= last && Kept(x, current, last)
    ensures Increasing(s)
    ensures i <= last && Kept(i, current, last) ==> |s| > 0 && s[0] == i
    ensures i <= last ==> |s| > 0 && s[|s| - 1] == last
    decreases last - i
  {
    if i > last then []
    else
      var rest := KeptFrom(i + 1, current, last);
      if Kept(i, current, last) then
        ConsIncreasing(i, rest);
        [i] + rest
      else rest
  }

  lemma ConsIncreasing(x: int, s: seq<int>)
    requires Increasing(s) && forall y | y in s :: x < y
    ensures Increasing([x] + s)
  {
    var r := [x] + s;
    forall a, b | 0 <= a < b < |r| ensures r[a] < r[b] {
      assert r[b] == s[b - 1] && s[b - 1] in s;
      if a > 0 {
        assert r[a] == s[a - 1];
      }
    }
  }

  /** One step of the second loop: page `i`, preceded -- when there is a
      previous page `l` -- by the page in between if the gap is exactly two,
      or by `"..."` if it is wider. */
  function Chunk(l: Option<int>, i: int): (c: seq<PageItem>)
    requires l.Some? ==> 1 <= l.value < i
    ensures 1 <= |c| <= 2 && c[|c| - 1] == Number(i)
    ensures l.None? ==> |c| == 1
    ensures |c| == 2 && c[0].Number? ==> l.Some? && c[0].n == l.value + 1 == i - 1
    ensures |c| == 2 && c[0].Dots? ==> l.Some? && i - l.value > 2
    ensures l.Some? && i - l.value == 1 ==> |c| == 1
  {
    var gap :=
      if l.Some? && l.value != 0 then
        if i - l.value == 2 then [Number(l.value + 1)]
        else if i - l.value > 2 then [Dots]
        else []
      else [];
    gap + [Number(i)]
  }

  /** The second loop: `l` is the previously emitted page (`undefined` at the
      start), `rest` the kept pages still to visit. */
  function WithGaps(l: Option<int>, rest: seq<int>): (r: seq<PageItem>)
    requires Increasing(rest) && forall k | 0 <= k < |rest| :: rest[k] >= 1
    requires l.Some? ==> l.value >= 1 && (|rest| > 0 ==> l.value < rest[0])
    ensures |r| == 0 <==> |rest| == 0
    ensures |rest| > 0 ==> r[|r| - 1] == Number(rest[|rest| - 1])
    ensures |rest| > 0 && l.None? ==> r[0] == Number(rest[0])
    ensures l.Some? ==> Leads(r, l.value)
    decreases |rest|
  {
    if |rest| == 0 then []
    else
      var i := rest[0];
      var c := Chunk(l, i);
      RestIncreasing(rest);
      var tail := WithGaps(Some(i), rest[1..]);
      Ends(l, rest, c, tail);
      c + tail
  }

  /** One step of the second loop. */
  lemma Unfold(l: Option<int>, rest: seq<int>)
    requires Increasing(rest) && forall k | 0 <= k < |rest| :: rest[k] >= 1
    requires l.Some? ==> l.value >= 1 && (|rest| > 0 ==> l.value < rest[0])
    requires |rest| > 0
    ensures Increasing(rest[1..]) && forall k | 0 <= k < |rest[1..]| :: rest[1..][k] >= 1
    ensures |rest| > 1 ==> rest[0] < rest[1..][0]
    ensures WithGaps(l, rest) == Chunk(l, rest[0]) + WithGaps(Some(rest[0]), rest[1..])
  {
    RestIncreasing(rest);
  }

  lemma RestIncreasing(rest: seq<int>)
    requires |rest| > 0 && Increasing(rest) && forall k | 0 <= k < |rest| :: rest[k] >= 1
    ensures Increasing(rest[1..]) && forall k | 0 <= k < |rest[1..]| :: rest[1..][k] >= 1
    ensures |rest| > 1 ==> rest[0] < rest[1..][0]
  {
    assert forall k | 0 <= k < |rest[1..]| :: rest[1..][k] == rest[k + 1];
  }

  /** Every page of `rest` has its number in `r`. */
  predicate Shows(r: seq<PageItem>, rest: seq<int>) {
    forall x | x in rest :: Number(x) in r
  }

  /** Every kept page gets its number in the list. */
  lemma {:induction false} WithGapsMembers(l: Option<int>, rest: seq<int>)
    requires Increasing(rest) && forall k | 0 <= k < |rest| :: rest[k] >= 1
    requires l.Some? ==> l.value >= 1 && (|rest| > 0 ==> l.value < rest[0])
    ensures Shows(WithGaps(l, rest), rest)
    decreases |rest|
  {
    if |rest| > 0 {
      Unfold(l, rest);
      WithGapsMembers(Some(rest[0]), rest[1..]);
      Members(rest, Chunk(l, rest[0]), WithGaps(Some(rest[0]), rest[1..]));
    }
  }

  lemma Members(rest: seq<int>, c: seq<PageItem>, tail: seq<PageItem>)
    requires |rest| > 0 && |c| > 0 && c[|c| - 1] == Number(rest[0])
    requires Shows(tail, rest[1..])
    ensures Shows(c + tail, rest)
  {
    var r := c + tail;
    assert rest == [rest[0]] + rest[1..];
    forall x | x in rest ensures Number(x) in r {
      if x == rest[0] {
        assert r[|c| - 1] == Number(x);
      } else {
        assert x in rest[1..];
        var j :| 0 <= j < |tail| && tail[j] == Number(x);
        assert r[|c| + j] == Number(x);
      }
    }
  }

  /** Every number in the list is a kept page or fills a one-page gap. */
  lemma {:induction false} WithGapsOrigins(l: Option<int>, rest: seq<int>)
    requires Increasing(rest) && forall k | 0 <= k < |rest| :: rest[k] >= 1
    requires l.Some? ==> l.value >= 1 && (|rest| > 0 ==> l.value < rest[0])
    ensures FromKept(WithGaps(l, rest), l, rest)
    decreases |rest|
  {
    if |rest| > 0 {
      var i := rest[0];
      Unfold(l, rest);
      var c, tail := Chunk(l, i), WithGaps(Some(i), rest[1..]);
      WithGapsOrigins(Some(i), rest[1..]);
      Origins(l, rest, c, tail);
    }
  }

  /** Adjacent numbers are consecutive, and every `"..."` after the first
      entry is bridged. */
  lemma {:induction false} WithGapsShape(l: Option<int>, rest: seq<int>)
    requires Increasing(rest) && forall k | 0 <= k < |rest| :: rest[k] >= 1
    requires l.Some? ==> l.value >= 1 && (|rest| > 0 ==> l.value < rest[0])
    ensures Adjacent(WithGaps(l, rest)) && InnerBridged(WithGaps(l, rest))
    decreases |rest|
  {
    if |rest| > 0 {
      Unfold(l, rest);
      WithGapsShape(Some(rest[0]), rest[1..]);
      GlueStep(l, rest);
    }
  }

  lemma GlueStep(l: Option<int>, rest: seq<int>)
    requires Increasing(rest) && forall k | 0 <= k < |rest| :: rest[k] >= 1
    requires l.Some? ==> l.value >= 1 && (|rest| > 0 ==> l.value < rest[0])
    requires |rest| > 0 && Increasing(rest[1..]) && forall k | 0 <= k < |rest[1..]| :: rest[1..][k] >= 1
    requires |rest| > 1 ==> rest[0] < rest[1..][0]
    requires Adjacent(WithGaps(Some(rest[0]), rest[1..])) && InnerBridged(WithGaps(Some(rest[0]), rest[1..]))
    ensures Adjacent(WithGaps(l, rest)) && InnerBridged(WithGaps(l, rest))
  {
    Unfold(l, rest);
    Glue(Chunk(l, rest[0]), rest[0], WithGaps(Some(rest[0]), rest[1..]));
  }

  /** The first and last entries of a chunk followed by the rest of the list. */
  lemma Ends(l: Option<int>, rest: seq<int>, c: seq<PageItem>, tail: seq<PageItem>)
    requires |rest| > 0 && (l.Some? ==> 1 <= l.value < rest[0])
    requires c == Chunk(l, rest[0])
    requires |tail| == 0 <==> |rest| == 1
    requires |rest| > 1 ==> tail[|tail| - 1] == Number(rest[|rest| - 1])
    ensures |c + tail| > 0 && (c + tail)[|c + tail| - 1] == Number(rest[|rest| - 1])
    ensures l.None? ==> (c + tail)[0] == Number(rest[0])
    ensures l.Some? ==> Leads(c + tail, l.value)
  {
    var r := c + tail;
    if |tail| > 0 {
      assert r[|r| - 1] == tail[|tail| - 1];
    } else {
      assert r == c;
    }
    assert r[0] == c[0];
    if |c| == 2 {
      assert r[1] == c[1];
    }
  }

  /** How a part of the list that follows page `l` starts: with page `l + 1`,
      or with a `"..."` followed by a page more than two past `l`. */
  predicate Leads(r: seq<PageItem>, l: int) {
    |r| > 0 ==>
      && (r[0].Number? ==> r[0].n == l + 1)
      && (r[0].Dots? ==> |r| > 1 && r[1].Number? && r[1].n - l > 2)
  }

  /** Where a number in the list comes from: it is a kept page, or the one
      page between two kept pages (or between the previous page `l` and a
      kept page). */
  predicate Origin(n: int, l: Option<int>, rest: seq<int>) {
    n in rest || (n + 1 in rest && (n - 1 in rest || l == Some(n - 1)))
  }

  /** Every number of `r` has an origin among `rest` (and `l`). */
  predicate FromKept(r: seq<PageItem>, l: Option<int>, rest: seq<int>) {
    forall j | 0 <= j < |r| && r[j].Number? :: Origin(r[j].n, l, rest)
  }

  lemma Origins(l: Option<int>, rest: seq<int>, c: seq<PageItem>, tail: seq<PageItem>)
    requires |rest| > 0 && l.Some? ==> 1 <= l.value < rest[0]
    requires |rest| > 0 && c == Chunk(l, rest[0])
    requires FromKept(tail, Some(rest[0]), rest[1..])
    ensures FromKept(c + tail, l, rest)
  {
    var r := c + tail;
    assert rest == [rest[0]] + rest[1..];
    forall j | 0 <= j < |r| && r[j].Number? ensures Origin(r[j].n, l, rest) {
      if j >= |c| {
        assert r[j] == tail[j - |c|];
        assert Origin(tail[j - |c|].n, Some(rest[0]), rest[1..]);
      }
    }
  }

  /** Two numbers next to each other are consecutive pages. */
  predicate Adjacent(r: seq<PageItem>) {
    forall i | 0 <= i < |r| - 1 :: r[i].Number? && r[i + 1].Number? ==> r[i + 1].n == r[i].n + 1
  }

  /** Every `"..."` stands between two numbers more than two pages apart. */
  predicate Bridged(r: seq<PageItem>) {
    forall i | 0 <= i < |r| && r[i].Dots? ::
      0 < i < |r| - 1 && r[i - 1].Number? && r[i + 1].Number? && r[i + 1].n - r[i - 1].n > 2
  }

  /** `Bridged`, except for a `"..."` in front, whose left neighbour is the
      page emitted before this part of the list. */
  predicate InnerBridged(r: seq<PageItem>) {
    forall i | 1 <= i < |r| && r[i].Dots? ::
      i < |r| - 1 && r[i - 1].Number? && r[i + 1].Number? && r[i + 1].n - r[i - 1].n > 2
  }

  /** The list is built chunk by chunk; the local properties survive gluing a
      chunk ending in page `i` to a tail that starts the way `WithGaps` starts. */
  lemma Glue(c: seq<PageItem>, i: int, tail: seq<PageItem>)
    requires 1 <= |c| <= 2 && c[|c| - 1] == Number(i)
    requires |c| == 2 && c[0].Number? ==> c[0].n == i - 1
    requires Adjacent(tail) && InnerBridged(tail)
    requires Leads(tail, i)
    ensures Adjacent(c + tail) && InnerBridged(c + tail)
  {
    var r := c + tail;
    var k := |c| - 1;
    forall j | 0 <= j < |r| - 1 && r[j].Number? && r[j + 1].Number?
      ensures r[j + 1].n == r[j].n + 1
    {
      if j > k {
        assert r[j] == tail[j - k - 1] && r[j + 1] == tail[j - k];
      }
    }
    forall j | 1 <= j < |r| && r[j].Dots?
      ensures j < |r| - 1 && r[j - 1].Number? && r[j + 1].Number? && r[j + 1].n - r[j - 1].n > 2
    {
      assert j > k;
      assert r[j] == tail[j - k - 1] && r[j + 1] == tail[j - k];
      if j > k + 1 {
        assert r[j - 1] == tail[j - k - 2];
      }
    }
  }

  /** `getPaginationRange(current, last)`: with at least one page, the list
      runs from page 1 to page `last`; with none it is empty. */
  function PaginationRange(current: int, last: int): (r: seq<PageItem>)
    ensures last < 1 <==> |r| == 0
    ensures last >= 1 ==> r[0] == Number(1) && r[|r| - 1] == Number(last)
    ensures forall p | 1 <= p <= last && Kept(p, current, last) :: Number(p) in r
  {
    var kept := KeptFrom(1, current, last);
    assert last >= 1 ==> Kept(1, current, last);
    assert forall k | 0 <= k < |kept| :: kept[k] in kept;
    WithGapsMembers(None, kept);
    WithGaps(None, kept)
  }

  /** Every button is a page between 1 and `last` that is either kept or the
      single page between two kept pages. */
  lemma ShownPagesKeptOrFiller(current: int, last: int, j: int)
    requires 0 <= j < |PaginationRange(current, last)|
    requires PaginationRange(current, last)[j].Number?
    ensures var n := PaginationRange(current, last)[j].n;
            && 1 <= n <= last
            && (Kept(n, current, last)
                || (!Kept(n, current, last) && Kept(n - 1, current, last) && Kept(n + 1, current, last)))
  {
    var kept := KeptFrom(1, current, last);
    assert forall k | 0 <= k < |kept| :: kept[k] in kept;
    var r := WithGaps(None, kept);
    assert r == PaginationRange(current, last);
    WithGapsOrigins(None, kept);
    var n := r[j].n;
    assert Origin(n, None, kept);
    if n !in kept {
      assert n - 1 in kept && n + 1 in kept;
    }
  }

  /** A `"..."` is never first or last, and sits between two page numbers
      more than two apart; two `"..."` are never next to each other. */
  lemma DotsBridged(current: int, last: int)
    ensures Bridged(PaginationRange(current, last))
    ensures Adjacent(PaginationRange(current, last))
  {
    var kept := KeptFrom(1, current, last);
    assert forall k | 0 <= k < |kept| :: kept[k] in kept;
    WithGapsShape(None, kept);
  }

  /** The page numbers are strictly ascending, so no page appears twice. */
  lemma Ascending(current: int, last: int, a: int, b: int)
    requires 0 <= a < b < |PaginationRange(current, last)|
    requires PaginationRange(current, last)[a].Number? && PaginationRange(current, last)[b].Number?
    ensures PaginationRange(current, last)[a].n < PaginationRange(current, last)[b].n
  {
    DotsBridged(current, last);
    AscendingFrom(PaginationRange(current, last), a, b);
  }

  lemma {:induction false} AscendingFrom(r: seq<PageItem>, a: int, b: int)
    requires Adjacent(r) && Bridged(r)
    requires 0 <= a < b < |r| && r[a].Number? && r[b].Number?
    ensures r[a].n < r[b].n
    decreases b - a
  {
    if r[a + 1].Number? {
      if a + 1 < b {
        AscendingFrom(r, a + 1, b);
      }
    } else {
      assert r[a + 2].Number? && r[a + 2].n > r[a].n;
      if a + 2 < b {
        AscendingFrom(r, a + 2, b);
      }
    }
  }
}
