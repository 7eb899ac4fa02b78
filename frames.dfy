/** Response tables as the cleaning script sees them: cells, rows and
    frames (column labels plus rows), with the list operations the script's
    steps are built from: row filters, positional column selection and
    per-row missing-cell counts. */
module Frames {

  /** One cell of a survey export: an empty answer (NaN), a number, or text. */
  datatype Cell = Missing | Num(n: int) | Text(s: string)

  type Row = seq<Cell>

  datatype Option<T> = None | Some(value: T)

  datatype Result<T, E> = Ok(value: T) | Err(error: E)

  /** A table: its column labels and its rows, in order. */
  datatype Frame = Frame(columns: seq<string>, rows: seq<Row>)

  /** Every row has exactly one cell per column label. */
  predicate Rectangular(f: Frame) {
    forall i :: 0 <= i < |f.rows| ==> |f.rows[i]| == |f.columns|
  }

  /** Number of missing cells in a row: pd.isnull(row).sum(). */
  function MissingCount(row: Row): (n: nat)
    ensures n <= |row|
    ensures n == 0 <==> forall j :: 0 <= j < |row| ==> row[j] != Missing
    ensures n == |row| <==> forall j :: 0 <= j < |row| ==> row[j] == Missing
  {
    if row == [] then 0
    else (if row[0] == Missing then 1 else 0) + MissingCount(row[1..])
  }

  /** The count is additive over concatenated rows, so adding a missing
      cell raises it by one and adding an answered cell leaves it alone. */
  lemma {:induction false} MissingCountAppend(a: Row, b: Row)
    ensures MissingCount(a + b) == MissingCount(a) + MissingCount(b)
  {
    if a == [] {
      assert a + b == b;
    } else {
      assert (a + b)[1..] == a[1..] + b;
      MissingCountAppend(a[1..], b);
    }
  }

  /** The elements of `s` that satisfy `keep`, in their original order
      (a boolean row mask such as `df.loc[mask]`). */
  function Filter<T>(s: seq<T>, keep: T -> bool): (r: seq<T>)
    ensures |r| <= |s|
    ensures forall x :: x in r ==> x in s && keep(x)
    ensures forall x :: x in s && keep(x) ==> x in r
  {
    if s == [] then []
    else (if keep(s[0]) then [s[0]] else []) + Filter(s[1..], keep)
  }

  /** Filtering distributes over concatenation: the kept elements of a
      prefix come before those of the rest, i.e. the order is preserved. */
  lemma {:induction false} FilterAppend<T>(a: seq<T>, b: seq<T>, keep: T -> bool)
    ensures Filter(a + b, keep) == Filter(a, keep) + Filter(b, keep)
  {
    if a == [] {
      assert a + b == b;
    } else {
      assert (a + b)[1..] == a[1..] + b;
      FilterAppend(a[1..], b, keep);
    }
  }

  /** Filtering a sequence extended by one element: the step of a loop that
      builds the kept elements one at a time. */
  lemma FilterSnoc<T>(s: seq<T>, x: T, keep: T -> bool)
    ensures Filter(s + [x], keep) == Filter(s, keep) + (if keep(x) then [x] else [])
  {
    FilterAppend(s, [x], keep);
    assert [x][1..] == [];
  }

  /** Every copy of a kept element survives and no other element does. */
  lemma {:induction false} FilterMultiplicity<T>(s: seq<T>, keep: T -> bool, x: T)
    ensures multiset(Filter(s, keep))[x] == if keep(x) then multiset(s)[x] else 0
  {
    if s != [] {
      FilterMultiplicity(s[1..], keep, x);
      assert s == [s[0]] + s[1..];
    }
  }

  /** When every element is kept, filtering changes nothing. */
  lemma {:induction false} FilterKeepsAll<T>(s: seq<T>, keep: T -> bool)
    requires forall k :: 0 <= k < |s| ==> keep(s[k])
    ensures Filter(s, keep) == s
  {
    if s != [] {
      FilterKeepsAll(s[1..], keep);
    }
  }

  /** When no element is kept, nothing is left. */
  lemma {:induction false} FilterNone<T>(s: seq<T>, keep: T -> bool)
    requires forall k :: 0 <= k < |s| ==> !keep(s[k])
    ensures Filter(s, keep) == []
  {
    if s != [] {
      FilterNone(s[1..], keep);
    }
  }

  /** The positions j < n that satisfy `p`, in ascending order. */
  function Indices(n: nat, p: nat -> bool): (r: seq<nat>)
    ensures forall k :: 0 <= k < |r| ==> r[k] < n && p(r[k])
    ensures forall j :: 0 <= j < n && p(j) ==> j in r
    ensures forall a, b :: 0 <= a < b < |r| ==> r[a] < r[b]
  {
    if n == 0 then [] else Indices(n - 1, p) + (if p(n - 1) then [n - 1] else [])
  }

  /** The positions 0, 1, ..., n - 1. */
  function Iota(n: nat): (r: seq<nat>)
    ensures |r| == n && forall k :: 0 <= k < n ==> r[k] == k
  {
    if n == 0 then [] else Iota(n - 1) + [n - 1]
  }

  /** A test that holds below `n` selects every position, in order. */
  lemma {:induction false} IndicesAll(n: nat, p: nat -> bool)
    requires forall j :: 0 <= j < n ==> p(j)
    ensures Indices(n, p) == Iota(n)
  {
    if n > 0 {
      IndicesAll(n - 1, p);
      assert p(n - 1);
    }
  }

  /** Two tests that agree below `n` select the same positions. */
  lemma {:induction false} IndicesAgree(n: nat, p: nat -> bool, q: nat -> bool)
    requires forall j :: 0 <= j < n ==> p(j) == q(j)
    ensures Indices(n, p) == Indices(n, q)
  {
    if n > 0 {
      IndicesAgree(n - 1, p, q);
    }
  }

  /** The elements of `s` at the positions `keep`, in that order. */
  function Project<T>(s: seq<T>, keep: seq<nat>): seq<T>
    requires forall k :: 0 <= k < |keep| ==> keep[k] < |s|
  {
    seq(|keep|, k requires 0 <= k < |keep| => s[keep[k]])
  }

  /** The frame restricted to the columns at positions `keep`. */
  function ProjectFrame(f: Frame, keep: seq<nat>): (r: Frame)
    requires Rectangular(f)
    requires forall k :: 0 <= k < |keep| ==> keep[k] < |f.columns|
    ensures Rectangular(r) && |r.rows| == |f.rows| && |r.columns| == |keep|
    ensures forall c :: 0 <= c < |keep| ==> r.columns[c] == f.columns[keep[c]]
    ensures forall i, c :: 0 <= i < |f.rows| && 0 <= c < |keep| ==> r.rows[i][c] == f.rows[i][keep[c]]
  {
    Frame(Project(f.columns, keep),
          seq(|f.rows|, i requires 0 <= i < |f.rows| => Project(f.rows[i], keep)))
  }

  /** Positions `inner` picked out of the positions `outer`. */
  function Compose(outer: seq<nat>, inner: seq<nat>): (r: seq<nat>)
    requires forall k :: 0 <= k < |inner| ==> inner[k] < |outer|
    ensures |r| == |inner| && forall k :: 0 <= k < |inner| ==> r[k] == outer[inner[k]]
  {
    seq(|inner|, k requires 0 <= k < |inner| => outer[inner[k]])
  }

  /** Ascending positions picked in ascending order stay ascending. */
  lemma ComposeAscending(outer: seq<nat>, inner: seq<nat>)
    requires Ascending(outer) && Ascending(inner)
    requires forall k :: 0 <= k < |inner| ==> inner[k] < |outer|
    ensures Ascending(Compose(outer, inner))
  {
  }

  /** Selecting columns twice is selecting the composed positions once. */
  lemma ProjectTwice(f: Frame, outer: seq<nat>, inner: seq<nat>)
    requires Rectangular(f)
    requires forall k :: 0 <= k < |outer| ==> outer[k] < |f.columns|
    requires forall k :: 0 <= k < |inner| ==> inner[k] < |outer|
    ensures ProjectFrame(ProjectFrame(f, outer), inner) == ProjectFrame(f, Compose(outer, inner))
  {
    var a, b := ProjectFrame(ProjectFrame(f, outer), inner), ProjectFrame(f, Compose(outer, inner));
    assert a.columns == b.columns;
    forall i | 0 <= i < |f.rows| ensures a.rows[i] == b.rows[i] {
    }
  }

  /** Selecting every position in order changes nothing. */
  lemma ProjectAll(f: Frame, keep: seq<nat>)
    requires Rectangular(f)
    requires |keep| == |f.columns| && forall k :: 0 <= k < |keep| ==> keep[k] == k
    ensures ProjectFrame(f, keep) == f
  {
    var r := ProjectFrame(f, keep);
    assert r.columns == f.columns;
    forall i | 0 <= i < |f.rows| ensures r.rows[i] == f.rows[i] {
    }
  }

  /** Positions in strictly ascending order. */
  predicate Ascending(s: seq<nat>) {
    forall a, b :: 0 <= a < b < |s| ==> s[a] < s[b]
  }

  /** Two sequences with the same members are empty together. */
  lemma SameMembersEmpty(s: seq<nat>, t: seq<nat>)
    requires forall x :: x in s <==> x in t
    ensures s == [] <==> t == []
  {
    if s != [] {
      assert s[0] in t;
    }
    if t != [] {
      assert t[0] in s;
    }
  }

  /** A set of positions has only one ascending listing. */
  lemma {:induction false} AscendingUnique(s: seq<nat>, t: seq<nat>)
    requires Ascending(s) && Ascending(t)
    requires forall x :: x in s <==> x in t
    ensures s == t
    decreases |s|
  {
    SameMembersEmpty(s, t);
    if s != [] {
      assert s[0] in s;
      assert t[0] in t;
      var i :| 0 <= i < |s| && s[i] == t[0];
      var j :| 0 <= j < |t| && t[j] == s[0];
      assert s[0] <= s[i] && t[0] <= t[j];
      forall x ensures x in s[1..] <==> x in t[1..] {
        if x in s[1..] {
          var a :| 1 <= a < |s| && s[a] == x;
          assert x in t && x != t[0];
          var b :| 0 <= b < |t| && t[b] == x;
          assert t[1..][b - 1] == x;
        }
        if x in t[1..] {
          var b :| 1 <= b < |t| && t[b] == x;
          assert x in s && x != s[0];
          var a :| 0 <= a < |s| && s[a] == x;
          assert s[1..][a - 1] == x;
        }
      }
      AscendingUnique(s[1..], t[1..]);
      assert s == [s[0]] + s[1..] && t == [t[0]] + t[1..];
    }
  }

  /** Position of the first column labelled `name` (`df[name]`); None when
      no column has that label (pandas raises KeyError). */
  function ColumnIndex(columns: seq<string>, name: string): (r: Option<nat>)
    ensures r.None? <==> name !in columns
    ensures r.Some? ==> r.value < |columns| && columns[r.value] == name
    ensures r.Some? ==> forall j :: 0 <= j < r.value ==> columns[j] != name
  {
    if columns == [] then None
    else if columns[0] == name then Some(0)
    else match ColumnIndex(columns[1..], name)
      case None => None
      case Some(k) => Some(k + 1)
  }
}
