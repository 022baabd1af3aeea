/** `orderBy` on one column: the row a listing returns, the columns it may be
    sorted by, the order each column's values fall in, and a sort that
    produces a permutation in that order. Rows with equal keys may come out in
    any order; nothing here promises more than the single-column order. */
module Ordering {
  import opened Schema

  /** A row as the listing returns it: its id and its columns. */
  datatype Row = Row(id: nat, server: Server)

  /** The sortable columns. */
  datatype Column = IdColumn | NameColumn | IpColumn | CpuColumn | RamColumn
                  | StorageColumn | CreatedColumn | UpdatedColumn

  datatype Direction = Asc | Desc

  /** Code-point lexicographic order on strings: a proper prefix comes first. */
  predicate TextLe(a: string, b: string) {
    |a| == 0 || (|b| > 0 && (a[0] < b[0] || (a[0] == b[0] && TextLe(a[1..], b[1..]))))
  }

  lemma {:induction false} TextLeTotal(a: string, b: string)
    ensures TextLe(a, b) || TextLe(b, a)
  {
    if |a| > 0 && |b| > 0 && a[0] == b[0] {
      TextLeTotal(a[1..], b[1..]);
    }
  }

  lemma {:induction false} TextLeTrans(a: string, b: string, c: string)
    requires TextLe(a, b) && TextLe(b, c)
    ensures TextLe(a, c)
  {
    if |a| > 0 && a[0] == b[0] && b[0] == c[0] {
      TextLeTrans(a[1..], b[1..], c[1..]);
    }
  }

  lemma {:induction false} TextLeAntisym(a: string, b: string)
    requires TextLe(a, b) && TextLe(b, a)
    ensures a == b
  {
    if |a| > 0 && |b| > 0 {
      TextLeAntisym(a[1..], b[1..]);
      assert a == [a[0]] + a[1..] && b == [b[0]] + b[1..];
    }
  }

  /** `a` may come before `b` in ascending order of column `c`. */
  predicate ColumnLe(a: Row, b: Row, c: Column) {
    match c
    case IdColumn => a.id <= b.id
    case NameColumn => TextLe(a.server.name, b.server.name)
    case IpColumn => TextLe(a.server.ipAddress, b.server.ipAddress)
    case CpuColumn => a.server.cpuCores <= b.server.cpuCores
    case RamColumn => a.server.ramMb <= b.server.ramMb
    case StorageColumn => a.server.storageGb <= b.server.storageGb
    case CreatedColumn => a.server.createdAt <= b.server.createdAt
    case UpdatedColumn => a.server.updatedAt <= b.server.updatedAt
  }

  /** `a` may come before `b` when sorting by `c` in direction `d`. */
  predicate Precedes(a: Row, b: Row, c: Column, d: Direction) {
    if d == Asc then ColumnLe(a, b, c) else ColumnLe(b, a, c)
  }

  lemma PrecedesTotal(a: Row, b: Row, c: Column, d: Direction)
    ensures Precedes(a, b, c, d) || Precedes(b, a, c, d)
  {
    if c == NameColumn {
      TextLeTotal(a.server.name, b.server.name);
    } else if c == IpColumn {
      TextLeTotal(a.server.ipAddress, b.server.ipAddress);
    }
  }

  lemma PrecedesTrans(a: Row, b: Row, e: Row, c: Column, d: Direction)
    requires Precedes(a, b, c, d) && Precedes(b, e, c, d)
    ensures Precedes(a, e, c, d)
  {
    if c == NameColumn {
      if d == Asc {
        TextLeTrans(a.server.name, b.server.name, e.server.name);
      } else {
        TextLeTrans(e.server.name, b.server.name, a.server.name);
      }
    } else if c == IpColumn {
      if d == Asc {
        TextLeTrans(a.server.ipAddress, b.server.ipAddress, e.server.ipAddress);
      } else {
        TextLeTrans(e.server.ipAddress, b.server.ipAddress, a.server.ipAddress);
      }
    }
  }

  /** Every earlier row may precede every later one. */
  predicate Sorted(s: seq<Row>, c: Column, d: Direction) {
    forall i, j | 0 <= i < j < |s| :: Precedes(s[i], s[j], c, d)
  }

  /** Insert `x` in front of the first row it may precede. */
  function InsertSorted(x: Row, s: seq<Row>, c: Column, d: Direction): (r: seq<Row>)
    ensures multiset(r) == multiset(s) + multiset{x}
    ensures |r| == |s| + 1
  {
    if |s| == 0 || Precedes(x, s[0], c, d) then [x] + s
    else
      assert s == [s[0]] + s[1..];
      [s[0]] + InsertSorted(x, s[1..], c, d)
  }

  lemma {:induction false} InsertSortedKeepsOrder(x: Row, s: seq<Row>, c: Column, d: Direction)
    requires Sorted(s, c, d)
    ensures Sorted(InsertSorted(x, s, c, d), c, d)
  {
    if |s| == 0 {
    } else if Precedes(x, s[0], c, d) {
      forall j | 0 <= j < |s| ensures Precedes(x, s[j], c, d) {
        if j > 0 {
          PrecedesTrans(x, s[0], s[j], c, d);
        }
      }
      ConsSorted(x, s, c, d);
    } else {
      var t := InsertSorted(x, s[1..], c, d);
      InsertSortedKeepsOrder(x, s[1..], c, d);
      PrecedesTotal(x, s[0], c, d);
      forall j | 0 <= j < |t|
        ensures Precedes(s[0], t[j], c, d)
      {
        assert t[j] in multiset(t);
        if t[j] != x {
          assert t[j] in multiset(s[1..]);
          var k :| 0 <= k < |s[1..]| && s[1..][k] == t[j];
          assert s[k + 1] == t[j];
        }
      }
      ConsSorted(s[0], t, c, d);
    }
  }

  /** A row that may precede every row of a sorted sequence can go in front. */
  lemma ConsSorted(x: Row, s: seq<Row>, c: Column, d: Direction)
    requires Sorted(s, c, d)
    requires forall j | 0 <= j < |s| :: Precedes(x, s[j], c, d)
    ensures Sorted([x] + s, c, d)
  {
    var r := [x] + s;
    forall i, j | 0 <= i < j < |r|
      ensures Precedes(r[i], r[j], c, d)
    {
      if i == 0 {
        assert r[j] == s[j - 1];
      } else {
        assert r[i] == s[i - 1] && r[j] == s[j - 1];
      }
    }
  }

  /** The rows of `s` rearranged into the order of column `c`, direction `d`. */
  function SortBy(s: seq<Row>, c: Column, d: Direction): (r: seq<Row>)
    ensures multiset(r) == multiset(s)
    ensures |r| == |s|
    ensures Sorted(r, c, d)
  {
    if |s| == 0 then []
    else
      var rest := SortBy(s[1..], c, d);
      InsertSortedKeepsOrder(s[0], rest, c, d);
      assert s == [s[0]] + s[1..];
      InsertSorted(s[0], rest, c, d)
  }

  /** Two sorted arrangements of the same rows are equal when no two of the
      rows tie on the column: the database then has only one order to give. */
  lemma {:induction false} SortedUnique(a: seq<Row>, b: seq<Row>, c: Column, d: Direction)
    requires multiset(a) == multiset(b) && Sorted(a, c, d) && Sorted(b, c, d)
    requires forall x, y | x in a && y in a && Precedes(x, y, c, d) && Precedes(y, x, c, d) :: x == y
    ensures a == b
    decreases |a|
  {
    assert |a| == |multiset(a)| == |multiset(b)| == |b|;
    if |a| > 0 {
      HeadsAgree(a, b, c, d);
      TailsPermuted(a, b);
      TailSorted(a, c, d);
      TailSorted(b, c, d);
      SortedUnique(a[1..], b[1..], c, d);
    }
  }

  lemma HeadsAgree(a: seq<Row>, b: seq<Row>, c: Column, d: Direction)
    requires |a| > 0 && multiset(a) == multiset(b) && Sorted(a, c, d) && Sorted(b, c, d)
    requires forall x, y | x in a && y in a && Precedes(x, y, c, d) && Precedes(y, x, c, d) :: x == y
    ensures |b| > 0 && a[0] == b[0]
  {
    assert a[0] in multiset(b);
    var j :| 0 <= j < |b| && b[j] == a[0];
    assert b[0] in multiset(a);
    var i :| 0 <= i < |a| && a[i] == b[0];
    if i > 0 && j > 0 {
      assert Precedes(a[0], a[i], c, d);
      assert Precedes(b[0], b[j], c, d);
      assert a[i] in a && a[0] in a;
    }
  }

  lemma TailsPermuted(a: seq<Row>, b: seq<Row>)
    requires |a| > 0 && |b| > 0 && a[0] == b[0] && multiset(a) == multiset(b)
    ensures multiset(a[1..]) == multiset(b[1..])
  {
    assert a == [a[0]] + a[1..] && b == [b[0]] + b[1..];
    assert multiset(a) == multiset{a[0]} + multiset(a[1..]);
    assert multiset(b) == multiset{a[0]} + multiset(b[1..]);
    assert multiset(a[1..]) == multiset(a) - multiset{a[0]} == multiset(b[1..]);
  }

  lemma TailSorted(s: seq<Row>, c: Column, d: Direction)
    requires |s| > 0 && Sorted(s, c, d)
    ensures Sorted(s[1..], c, d)
  {
    forall i, j | 0 <= i < j < |s| - 1 ensures Precedes(s[1..][i], s[1..][j], c, d) {
      assert s[1..][i] == s[i + 1] && s[1..][j] == s[j + 1];
    }
  }
}
