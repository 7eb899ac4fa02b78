/** The eligibility and winner-selection half of surveySetup.py: e-mail
    normalisation, the split by collector and the merge of the two batches,
    the removal of empty and private columns, duplicate detection, the
    completeness tally and filter, and the raffle draw. */
module Respondents {
  import opened Frames

  /** Positions and labels the script addresses. */
  const NameColumn: nat := 4
  const KeyColumn: nat := 5
  const EmailColumn: nat := 10
  const CollectorLabel: string := "Collector ID"
  const IpLabel: string := "IP Address"
  const TallyLabel: string := "Total Incomplete Answers"

  /** The two collectors of the current data collection period. */
  const IsteCollector: int := 98658412
  const SwenCollector: int := 98658411

  /** The institutional suffixes removed from e-mail addresses, in order. */
  const RitDomain: string := "@rit.edu"
  const GRitDomain: string := "@g.rit.edu"

  // ---------------------------------------------------------------------
  // E-mail normalisation (lines 28-30)

  predicate IsUpper(c: char) { 'A' <= c <= 'Z' }

  function LowerChar(c: char): char {
    if IsUpper(c) then (c as int + 32) as char else c
  }

  /** str.lower, on the ASCII letters. */
  function Lower(s: string): (r: string)
    ensures |r| == |s|
    ensures forall i :: 0 <= i < |r| ==> !IsUpper(r[i])
    ensures forall i :: 0 <= i < |s| && !IsUpper(s[i]) ==> r[i] == s[i]
    ensures forall i :: 0 <= i < |s| && IsUpper(s[i]) ==> r[i] as int == s[i] as int + 32
  {
    seq(|s|, i requires 0 <= i < |s| => LowerChar(s[i]))
  }

  /** Lower-casing works character by character. */
  lemma LowerAppend(a: string, b: string)
    ensures Lower(a + b) == Lower(a) + Lower(b)
  {
  }

  /** `pat` starts at position i of s. */
  predicate OccursAt(s: string, pat: string, i: int) {
    0 <= i && i + |pat| <= |s| && s[i..i + |pat|] == pat
  }

  /** s.replace(pat, ''): every occurrence of pat found scanning left to
      right, without overlaps, is removed. */
  function RemoveAll(s: string, pat: string): (r: string)
    requires pat != []
    ensures |r| <= |s|
    decreases |s|
  {
    if |s| < |pat| then s
    else if s[..|pat|] == pat then RemoveAll(s[|pat|..], pat)
    else [s[0]] + RemoveAll(s[1..], pat)
  }

  /** Removal introduces no character that was not there. */
  lemma {:induction false} RemoveAllKeeps(s: string, pat: string)
    requires pat != []
    ensures forall i :: 0 <= i < |RemoveAll(s, pat)| ==> RemoveAll(s, pat)[i] in s
    decreases |s|
  {
    if |s| >= |pat| {
      if s[..|pat|] == pat {
        RemoveAllKeeps(s[|pat|..], pat);
        forall c | c in s[|pat|..] ensures c in s {
          var k :| 0 <= k < |s[|pat|..]| && s[|pat|..][k] == c;
          assert s[|pat| + k] == c;
        }
      } else {
        RemoveAllKeeps(s[1..], pat);
        forall c | c in s[1..] ensures c in s {
          var k :| 0 <= k < |s[1..]| && s[1..][k] == c;
          assert s[1 + k] == c;
        }
      }
    }
  }

  /** Where pat does not occur, removal changes nothing. */
  lemma {:induction false} RemoveAllAbsent(s: string, pat: string)
    requires pat != []
    requires forall i :: !OccursAt(s, pat, i)
    ensures RemoveAll(s, pat) == s
    decreases |s|
  {
    if |s| >= |pat| {
      assert !OccursAt(s, pat, 0);
      forall i | 0 <= i
        ensures !OccursAt(s[1..], pat, i)
      {
        if i + |pat| <= |s[1..]| {
          assert s[1..][i..i + |pat|] == s[i + 1..i + 1 + |pat|];
          assert !OccursAt(s, pat, i + 1);
        }
      }
      RemoveAllAbsent(s[1..], pat);
    }
  }

  /** A trailing pat is removed from a string whose prefix cannot start an
      occurrence. */
  lemma {:induction false} RemoveTrailing(a: string, pat: string)
    requires pat != [] && pat[0] !in a
    ensures RemoveAll(a + pat, pat) == a
    decreases |a|
  {
    if a == [] {
      assert a + pat == pat;
    } else {
      assert (a + pat)[0] != pat[0];
      assert (a + pat)[1..] == a[1..] + pat;
      RemoveTrailing(a[1..], pat);
    }
  }

  /** One step of the scan past a position where pat does not start. */
  lemma RemoveAllSkip(s: string, pat: string)
    requires pat != [] && |s| > |pat| && !OccursAt(s, pat, 0)
    ensures RemoveAll(s, pat) == [s[0]] + RemoveAll(s[1..], pat)
  {
  }

  /** An occurrence after position 0 of s is one position earlier in s[1..]. */
  lemma OccursShift(s: string, pat: string, i: nat)
    requires 0 < i && i + |pat| <= |s|
    ensures OccursAt(s, pat, i) <==> OccursAt(s[1..], pat, i - 1)
  {
    assert s[1..][i - 1..i - 1 + |pat|] == s[i..i + |pat|];
  }

  /** A pat at the start is removed and the scan resumes after it. */
  lemma RemoveAllAtStart(s: string, pat: string)
    requires pat != [] && OccursAt(s, pat, 0)
    ensures RemoveAll(s, pat) == s[..0] + RemoveAll(s[|pat|..], pat)
  {
    assert s[..|pat|] == pat;
    assert s[..0] == [];
  }

  /** Shifting by one character keeps "no occurrence before i" and the
      occurrence at i. */
  lemma NoEarlierShift(s: string, pat: string, i: nat)
    requires 0 < i && OccursAt(s, pat, i)
    requires forall j :: 0 <= j < i ==> !OccursAt(s, pat, j)
    ensures OccursAt(s[1..], pat, i - 1)
    ensures forall j :: 0 <= j < i - 1 ==> !OccursAt(s[1..], pat, j)
  {
    OccursShift(s, pat, i);
    forall j | 0 <= j < i - 1 ensures !OccursAt(s[1..], pat, j) {
      OccursShift(s, pat, j + 1);
    }
  }

  /** The first character, then the next i - 1, then the rest. */
  lemma PrefixThrough(s: string, i: nat, rest: string)
    requires 0 < i <= |s|
    ensures [s[0]] + (s[1..][..i - 1] + rest) == s[..i] + rest
  {
    assert [s[0]] + s[1..][..i - 1] == s[..i];
  }

  /** Scanning from the left, the first occurrence of pat is removed and
      everything before it is kept; the scan resumes after it. */
  lemma {:induction false} RemoveAllFirst(s: string, pat: string, i: nat)
    requires pat != [] && OccursAt(s, pat, i)
    requires forall j :: 0 <= j < i ==> !OccursAt(s, pat, j)
    ensures RemoveAll(s, pat) == s[..i] + RemoveAll(s[i + |pat|..], pat)
    decreases i
  {
    if i == 0 {
      RemoveAllAtStart(s, pat);
    } else {
      var t := s[1..];
      RemoveAllSkip(s, pat);
      NoEarlierShift(s, pat, i);
      RemoveAllFirst(t, pat, i - 1);
      var after := s[i + |pat|..];
      assert t[i - 1 + |pat|..] == after;
      PrefixThrough(s, i, RemoveAll(after, pat));
    }
  }

  /** The two suffix removals, in the script's order. */
  function StripDomains(s: string): string {
    RemoveAll(RemoveAll(s, RitDomain), GRitDomain)
  }

  /** The e-mail cell after lines 28-30: text is lower-cased and stripped of
      the institutional suffixes; a cell that is not text (missing, or a
      number, which pandas' string methods turn into NaN) becomes missing. */
  function NormaliseEmail(c: Cell): (r: Cell)
    ensures r.Text? <==> c.Text?
    ensures r.Missing? <==> !c.Text?
    ensures r.Text? ==> |r.s| <= |c.s| && forall i :: 0 <= i < |r.s| ==> !IsUpper(r.s[i])
  {
    match c
    case Text(s) =>
      var l := Lower(s);
      RemoveAllKeeps(l, RitDomain);
      RemoveAllKeeps(RemoveAll(l, RitDomain), GRitDomain);
      Text(StripDomains(l))
    case _ => Missing
  }

  /** "@rit.edu" starts nowhere in a text without '@' followed by
      "@g.rit.edu": every candidate position differs from it in its first
      or second character. */
  lemma NoRitDomainAt(l: string, i: int)
    requires '@' !in l
    ensures !OccursAt(l + GRitDomain, RitDomain, i)
  {
    var s := l + GRitDomain;
    if 0 <= i && i + |RitDomain| <= |s| {
      var w := s[i..i + |RitDomain|];
      assert RitDomain[0] == '@' && RitDomain[1] == 'r';
      if i < |l| {
        assert w[0] == l[i];
      } else if i == |l| {
        assert w[1] == GRitDomain[1] == 'g';
      } else if i == |l| + 1 {
        assert w[0] == GRitDomain[1] == 'g';
      } else {
        assert i == |l| + 2;
        assert w[0] == GRitDomain[2] == '.';
      }
    }
  }

  /** An institutional address, in any letter case, normalises to its
      lower-cased local part. */
  lemma InstitutionalAddress(local: string, domain: string)
    requires '@' !in local
    requires Lower(domain) == RitDomain || Lower(domain) == GRitDomain
    ensures NormaliseEmail(Text(local + domain)) == Text(Lower(local))
  {
    LowerAppend(local, domain);
    var l := Lower(local);
    assert '@' !in l by {
      forall i | 0 <= i < |l| ensures l[i] != '@' {
        assert local[i] != '@';
      }
    }
    forall i ensures !OccursAt(l, GRitDomain, i) && !OccursAt(l, RitDomain, i) {
      if 0 <= i < |l| {
        assert l[i] != '@';
      }
    }
    if Lower(domain) == RitDomain {
      RemoveTrailing(l, RitDomain);
      RemoveAllAbsent(l, GRitDomain);
    } else {
      var s := l + GRitDomain;
      forall i ensures !OccursAt(s, RitDomain, i) {
        NoRitDomainAt(l, i);
      }
      RemoveAllAbsent(s, RitDomain);
      RemoveTrailing(l, GRitDomain);
    }
  }

  /** Any other address keeps everything but its letter case. */
  lemma OtherAddress(s: string)
    requires forall i :: !OccursAt(Lower(s), RitDomain, i) && !OccursAt(Lower(s), GRitDomain, i)
    ensures NormaliseEmail(Text(s)) == Text(Lower(s))
  {
    RemoveAllAbsent(Lower(s), RitDomain);
    RemoveAllAbsent(Lower(s), GRitDomain);
  }

  /** Lines 28-30 as a function of the rows: column k of every row is
      normalised, everything else is kept. */
  function NormaliseColumn(rows: seq<Row>, k: nat): (r: seq<Row>)
    ensures |r| == |rows| && forall i :: 0 <= i < |rows| ==> |r[i]| == |rows[i]|
  {
    seq(|rows|, i requires 0 <= i < |rows| =>
      if k < |rows[i]| then rows[i][k := NormaliseEmail(rows[i][k])] else rows[i])
  }

  /** After normalisation the column holds only missing cells and text
      without upper-case letters; no other cell changes. */
  lemma NormaliseColumnEffect(rows: seq<Row>, k: nat)
    ensures |NormaliseColumn(rows, k)| == |rows|
    ensures forall i :: 0 <= i < |rows| ==> |NormaliseColumn(rows, k)[i]| == |rows[i]|
    ensures forall i, j :: 0 <= i < |rows| && 0 <= j < |rows[i]| && j != k ==>
      NormaliseColumn(rows, k)[i][j] == rows[i][j]
    ensures forall i :: 0 <= i < |rows| && k < |rows[i]| ==>
      var c := NormaliseColumn(rows, k)[i][k];
      c == Missing || (c.Text? && forall n :: 0 <= n < |c.s| ==> !IsUpper(c.s[n]))
  {
  }

  // ---------------------------------------------------------------------
  // Batches and merge (lines 33-39)

  /** The row belongs to the collector `id`, read at column k. */
  predicate InBatch(row: Row, k: nat, id: int) { k < |row| && row[k] == Num(id) }

  function FromCollector(k: nat, id: int): Row -> bool { r => InBatch(r, k, id) }

  /** df.loc[df['Collector ID'] == id] */
  function Batch(rows: seq<Row>, k: nat, id: int): seq<Row> {
    Filter(rows, FromCollector(k, id))
  }

  /** Column j holds at least one answer among the rows. */
  predicate HasValue(rows: seq<Row>, j: nat) {
    exists i :: 0 <= i < |rows| && j < |rows[i]| && rows[i][j] != Missing
  }

  function ValueIn(rows: seq<Row>): nat -> bool { (j: nat) => HasValue(rows, j) }

  /** The columns that dropna(axis=1, how='all') keeps, in table order. */
  function NonEmptyColumns(rows: seq<Row>, width: nat): (r: seq<nat>)
    ensures forall j: nat :: j in r <==> j < width && HasValue(rows, j)
    ensures forall c :: 0 <= c < |r| ==> r[c] < width && HasValue(rows, r[c])
    ensures Ascending(r)
  {
    Indices(width, ValueIn(rows))
  }

  /** dropna(axis=1, how='all'): the columns that hold an answer are kept,
      in order, with their cells; every dropped column held none. */
  function DropEmptyColumns(f: Frame): (r: Frame)
    requires Rectangular(f)
    ensures Rectangular(r) && |r.rows| == |f.rows|
    ensures var keep := NonEmptyColumns(f.rows, |f.columns|);
      |r.columns| == |keep|
      && (forall c :: 0 <= c < |keep| ==> r.columns[c] == f.columns[keep[c]])
      && forall i, c :: 0 <= i < |f.rows| && 0 <= c < |keep| ==> r.rows[i][c] == f.rows[i][keep[c]]
    ensures forall j :: 0 <= j < |r.columns| ==> HasValue(r.rows, j)
  {
    var keep := NonEmptyColumns(f.rows, |f.columns|);
    var r := ProjectFrame(f, keep);
    assert forall j :: 0 <= j < |r.columns| ==> HasValue(r.rows, j) by {
      forall j | 0 <= j < |r.columns| ensures HasValue(r.rows, j) {
        assert HasValue(f.rows, keep[j]);
        var i :| 0 <= i < |f.rows| && keep[j] < |f.rows[i]| && f.rows[i][keep[j]] != Missing;
        assert r.rows[i][j] == f.rows[i][keep[j]];
      }
    }
    r
  }

  /** df_ISTE.append(df_SWEN) over the export's columns: the first
      collector's rows, then the second's. */
  function Appended(f: Frame, k: nat): (m: Frame)
    requires Rectangular(f)
    ensures Rectangular(m) && m.columns == f.columns
  {
    var merged := Frame(f.columns, Batch(f.rows, k, IsteCollector) + Batch(f.rows, k, SwenCollector));
    assert Rectangular(merged) by {
      forall i | 0 <= i < |merged.rows| ensures |merged.rows[i]| == |f.columns| {
        assert merged.rows[i] in merged.rows;
      }
    }
    merged
  }

  /** The merged table: row i is row i of the first batch followed by the
      second, restricted, in order, to the columns that some merged row
      answered. */
  function MergeBatches(f: Frame, k: nat): (m: Frame)
    requires Rectangular(f)
    ensures Rectangular(m)
    ensures var ab := Batch(f.rows, k, IsteCollector) + Batch(f.rows, k, SwenCollector);
      var keep := NonEmptyColumns(ab, |f.columns|);
      |m.rows| == |ab| && |m.columns| == |keep|
      && (forall c :: 0 <= c < |keep| ==> m.columns[c] == f.columns[keep[c]])
      && forall i, c :: 0 <= i < |ab| && 0 <= c < |keep| ==>
        keep[c] < |ab[i]| && m.rows[i][c] == ab[i][keep[c]]
  {
    DropEmptyColumns(Appended(f, k))
  }

  /** The merge keeps every row of either collector, as many times as it
      occurs, and no row of any other collector. */
  lemma BatchesPartition(rows: seq<Row>, k: nat, x: Row)
    ensures multiset(Batch(rows, k, IsteCollector) + Batch(rows, k, SwenCollector))[x] ==
      if InBatch(x, k, IsteCollector) || InBatch(x, k, SwenCollector) then multiset(rows)[x] else 0
  {
    FilterMultiplicity(rows, FromCollector(k, IsteCollector), x);
    FilterMultiplicity(rows, FromCollector(k, SwenCollector), x);
  }

  /** Each batch keeps the table's order: the batch of a concatenation is
      the concatenation of the batches. */
  lemma BatchOrder(a: seq<Row>, b: seq<Row>, k: nat, id: int)
    ensures Batch(a + b, k, id) == Batch(a, k, id) + Batch(b, k, id)
  {
    FilterAppend(a, b, FromCollector(k, id));
  }

  /** A column has an answer in the merged rows exactly when it has one in
      either batch; so dropping empty columns per batch before appending,
      as the script does, drops the same columns as dropping them after. */
  lemma MergedColumns(a: seq<Row>, b: seq<Row>, width: nat)
    ensures forall j: nat :: j in NonEmptyColumns(a + b, width) <==>
      j in NonEmptyColumns(a, width) || j in NonEmptyColumns(b, width)
    ensures NonEmptyColumns(a, width) == NonEmptyColumns(b, width) ==>
      NonEmptyColumns(a + b, width) == NonEmptyColumns(a, width)
  {
    forall j: nat
      ensures HasValue(a + b, j) <==> HasValue(a, j) || HasValue(b, j)
    {
      if HasValue(a, j) {
        var i :| 0 <= i < |a| && j < |a[i]| && a[i][j] != Missing;
        assert (a + b)[i] == a[i];
      }
      if HasValue(b, j) {
        var i :| 0 <= i < |b| && j < |b[i]| && b[i][j] != Missing;
        assert (a + b)[|a| + i] == b[i];
      }
      if HasValue(a + b, j) {
        var i :| 0 <= i < |a + b| && j < |(a + b)[i]| && (a + b)[i][j] != Missing;
        if i < |a| {
          assert a[i] == (a + b)[i];
        } else {
          assert b[i - |a|] == (a + b)[i];
        }
      }
    }
    if NonEmptyColumns(a, width) == NonEmptyColumns(b, width) {
      IndicesAgree(width, ValueIn(a + b), ValueIn(a));
    }
  }

  function Unlabelled(columns: seq<string>, name: string): nat -> bool {
    (j: nat) => j < |columns| && columns[j] != name
  }

  /** `if name in df.columns: df = df.drop(name, 1)`: every column with that
      label goes, every other column stays, in order, with its cells. */
  function DropLabel(f: Frame, name: string): (r: Frame)
    requires Rectangular(f)
    ensures Rectangular(r) && |r.rows| == |f.rows|
    ensures name !in r.columns
    ensures forall c :: c in f.columns && c != name ==> c in r.columns
    ensures var keep := Indices(|f.columns|, Unlabelled(f.columns, name));
      |r.columns| == |keep|
      && (forall c :: 0 <= c < |keep| ==> r.columns[c] == f.columns[keep[c]])
      && forall i, c :: 0 <= i < |f.rows| && 0 <= c < |keep| ==> r.rows[i][c] == f.rows[i][keep[c]]
  {
    if name in f.columns then
      var keep := Indices(|f.columns|, Unlabelled(f.columns, name));
      var r := ProjectFrame(f, keep);
      assert forall c :: c in f.columns && c != name ==> c in r.columns by {
        forall c | c in f.columns && c != name ensures c in r.columns {
          var j :| 0 <= j < |f.columns| && f.columns[j] == c;
          assert j in keep;
          var k :| 0 <= k < |keep| && keep[k] == j;
          assert r.columns[k] == c;
        }
      }
      r
    else
      IndicesAll(|f.columns|, Unlabelled(f.columns, name));
      f
  }

  /** The columns of the export that survive both drops: answered by some
      merged row and not labelled `name`. */
  function Kept(rows: seq<Row>, columns: seq<string>, name: string): nat -> bool {
    (j: nat) => HasValue(rows, j) && j < |columns| && columns[j] != name
  }

  /** Positions picked by `inner` out of `outer`, where `outer` lists the
      positions passing `has` and `inner` those of its entries not labelled
      `name`, are the positions passing both tests. */
  lemma ComposedMembers(columns: seq<string>, outer: seq<nat>, inner: seq<nat>,
                        has: nat -> bool, name: string, x: nat)
    requires forall j: nat :: j in outer <==> j < |columns| && has(j)
    requires forall c :: 0 <= c < |outer| ==> outer[c] < |columns|
    requires forall c :: 0 <= c < |inner| ==> inner[c] < |outer|
    requires forall m: nat :: m in inner <==> m < |outer| && columns[outer[m]] != name
    ensures x in Compose(outer, inner) <==> has(x) && x < |columns| && columns[x] != name
  {
    var both := Compose(outer, inner);
    if x in both {
      var c :| 0 <= c < |both| && both[c] == x;
      assert inner[c] in inner;
      assert outer[inner[c]] in outer;
    }
    if has(x) && x < |columns| && columns[x] != name {
      assert x in outer;
      var m :| 0 <= m < |outer| && outer[m] == x;
      assert m in inner;
      var c :| 0 <= c < |inner| && inner[c] == m;
      assert both[c] == x;
    }
  }

  /** Dropping a label selects the positions of the other labels, whether
      or not the label occurs. */
  lemma DropLabelSelects(d: Frame, name: string)
    requires Rectangular(d)
    ensures DropLabel(d, name) == ProjectFrame(d, Indices(|d.columns|, Unlabelled(d.columns, name)))
  {
    if name !in d.columns {
      var inner := Indices(|d.columns|, Unlabelled(d.columns, name));
      IndicesAll(|d.columns|, Unlabelled(d.columns, name));
      ProjectAll(d, inner);
    }
  }

  /** The positions of the answered columns not labelled `name`, found in
      two steps: the answered columns, then those of them with another label. */
  lemma KeptInTwoSteps(rows: seq<Row>, columns: seq<string>, name: string)
    ensures var outer := NonEmptyColumns(rows, |columns|);
      var inner := Indices(|outer|, Unlabelled(Project(columns, outer), name));
      Compose(outer, inner) == Indices(|columns|, Kept(rows, columns, name))
  {
    var outer := NonEmptyColumns(rows, |columns|);
    var labels := Project(columns, outer);
    var inner := Indices(|outer|, Unlabelled(labels, name));
    ComposeAscending(outer, inner);
    forall m: nat ensures m in inner <==> m < |outer| && columns[outer[m]] != name {
      if m < |outer| {
        assert labels[m] == columns[outer[m]];
      }
    }
    var both := Compose(outer, inner);
    var kept := Indices(|columns|, Kept(rows, columns, name));
    forall x: nat ensures x in both <==> x in kept {
      ComposedMembers(columns, outer, inner, ValueIn(rows), name, x);
    }
    AscendingUnique(both, kept);
  }

  /** Dropping the empty columns and then the column `name` keeps, in
      order, exactly the columns that are answered and not labelled `name`. */
  lemma DropEmptyThenLabel(g: Frame, name: string)
    requires Rectangular(g)
    ensures DropLabel(DropEmptyColumns(g), name) == ProjectFrame(g, Indices(|g.columns|, Kept(g.rows, g.columns, name)))
  {
    var outer := NonEmptyColumns(g.rows, |g.columns|);
    var d := DropEmptyColumns(g);
    assert d == ProjectFrame(g, outer);
    var inner := Indices(|d.columns|, Unlabelled(d.columns, name));
    DropLabelSelects(d, name);
    ProjectTwice(g, outer, inner);
    KeptInTwoSteps(g.rows, g.columns, name);
  }

  /** What stops the script before the merged table exists. */
  datatype Fault = EmailColumnMissing | CollectorColumnMissing

  /** Lines 28-39: the merged, normalised respondent table. The script
      fails with IndexError when the export has no eleventh column and with
      KeyError when it has no 'Collector ID' column. */
  function CleanRespondents(raw: Frame): (r: Result<Frame, Fault>)
    requires Rectangular(raw)
    ensures r == Err(EmailColumnMissing) <==> |raw.columns| <= EmailColumn
    ensures r == Err(CollectorColumnMissing) <==>
      EmailColumn < |raw.columns| && CollectorLabel !in raw.columns
    ensures r.Ok? ==> Rectangular(r.value) && IpLabel !in r.value.columns
    ensures r.Ok? ==> CollectorLabel in raw.columns
    ensures r.Ok? && CollectorLabel in raw.columns ==>
      var g := Appended(Frame(raw.columns, NormaliseColumn(raw.rows, EmailColumn)),
                        ColumnIndex(raw.columns, CollectorLabel).value);
      var keep := Indices(|raw.columns|, Kept(g.rows, raw.columns, IpLabel));
      |r.value.rows| == |g.rows| && |r.value.columns| == |keep|
      && (forall c :: 0 <= c < |keep| ==> r.value.columns[c] == raw.columns[keep[c]])
      && forall i, c :: 0 <= i < |g.rows| && 0 <= c < |keep| ==> r.value.rows[i][c] == g.rows[i][keep[c]]
  {
    if |raw.columns| <= EmailColumn then Err(EmailColumnMissing)
    else
      var f := Frame(raw.columns, NormaliseColumn(raw.rows, EmailColumn));
      match ColumnIndex(f.columns, CollectorLabel)
      case None => Err(CollectorColumnMissing)
      case Some(k) =>
        DropEmptyThenLabel(Appended(f, k), IpLabel);
        Ok(DropLabel(MergeBatches(f, k), IpLabel))
  }

  // ---------------------------------------------------------------------
  // Duplicate detection (lines 46-55)

  /** Cell `key` of a row compares equal to `key` under pandas' `==`, where
      NaN equals nothing, not even NaN. */
  predicate HoldsKey(row: Row, k: nat, key: Cell) {
    key != Missing && k < |row| && row[k] == key
  }

  function KeyIs(k: nat, key: Cell): Row -> bool { r => HoldsKey(r, k, key) }

  /** (column == key).sum(): the rows whose column k holds `key`; none for
      a missing key. */
  function Occurrences(rows: seq<Row>, k: nat, key: Cell): (n: nat)
    ensures n <= |rows|
  {
    if rows == [] then 0
    else (if HoldsKey(rows[0], k, key) then 1 else 0) + Occurrences(rows[1..], k, key)
  }

  /** The sum counts exactly the rows that the mask `column == key` keeps. */
  lemma {:induction false} OccurrencesCount(rows: seq<Row>, k: nat, key: Cell)
    ensures Occurrences(rows, k, key) == |Filter(rows, KeyIs(k, key))|
  {
    if rows != [] {
      OccurrencesCount(rows[1..], k, key);
    }
  }

  /** The row's key is present and shared with another row: it falls in a
      groupby group of more than one row (groupby leaves out missing keys). */
  predicate Duplicated(rows: seq<Row>, k: nat, row: Row) {
    k < |row| && row[k] != Missing && Occurrences(rows, k, row[k]) > 1
  }

  function RepeatedIn(rows: seq<Row>, k: nat): Row -> bool { r => Duplicated(rows, k, r) }

  datatype DuplicateReport = NoDuplicateEntries | DuplicateEntries(entries: seq<Row>)

  /** The rows of every group of more than one row, or the "No duplicate
      entries" outcome when there is none (pd.concat of no group raises and
      the handler reports that). A key column past the table's width also
      ends there: no row then has a key. */
  function FindDuplicates(f: Frame): (r: DuplicateReport)
    ensures r.DuplicateEntries? ==> r.entries != []
    ensures r.DuplicateEntries? ==>
      forall row :: row in r.entries ==> row in f.rows && Duplicated(f.rows, KeyColumn, row)
    ensures forall row :: row in f.rows && Duplicated(f.rows, KeyColumn, row) ==>
      r.DuplicateEntries? && row in r.entries
    ensures r.DuplicateEntries? ==>
              forall row :: multiset(r.entries)[row] ==
                              (if Duplicated(f.rows, KeyColumn, row) then multiset(f.rows)[row] else 0)
  {
    var d := Filter(f.rows, RepeatedIn(f.rows, KeyColumn));
    assert forall row :: multiset(d)[row] ==
                           (if Duplicated(f.rows, KeyColumn, row) then multiset(f.rows)[row] else 0) by {
      forall row
        ensures multiset(d)[row] == (if Duplicated(f.rows, KeyColumn, row) then multiset(f.rows)[row] else 0)
      {
        FilterMultiplicity(f.rows, RepeatedIn(f.rows, KeyColumn), row);
      }
    }
    if d == [] then NoDuplicateEntries else DuplicateEntries(d)
  }

  /** No two rows share a present key. */
  predicate DistinctKeys(rows: seq<Row>, k: nat) {
    forall i, j :: 0 <= i < j < |rows| && k < |rows[i]| && k < |rows[j]| && rows[i][k] != Missing ==>
      rows[i][k] != rows[j][k]
  }

  lemma {:induction false} OccurrencesOfRow(rows: seq<Row>, k: nat, i: nat)
    requires i < |rows| && k < |rows[i]| && rows[i][k] != Missing
    ensures Occurrences(rows, k, rows[i][k]) >= 1
  {
    if i > 0 {
      OccurrencesOfRow(rows[1..], k, i - 1);
    }
  }

  lemma {:induction false} OccurrencesOfPair(rows: seq<Row>, k: nat, i: nat, j: nat)
    requires i < j < |rows| && k < |rows[i]| && k < |rows[j]| && rows[i][k] == rows[j][k]
    requires rows[i][k] != Missing
    ensures Occurrences(rows, k, rows[i][k]) >= 2
  {
    if i == 0 {
      OccurrencesOfRow(rows[1..], k, j - 1);
    } else {
      OccurrencesOfPair(rows[1..], k, i - 1, j - 1);
    }
  }

  lemma {:induction false} OccurrencesAbsent(rows: seq<Row>, k: nat, key: Cell)
    requires forall i :: 0 <= i < |rows| && k < |rows[i]| ==> rows[i][k] != key
    ensures Occurrences(rows, k, key) == 0
  {
    if rows != [] {
      OccurrencesAbsent(rows[1..], k, key);
    }
  }

  lemma {:induction false} OccurrencesOfDistinct(rows: seq<Row>, k: nat, key: Cell)
    requires DistinctKeys(rows, k) && key != Missing
    ensures Occurrences(rows, k, key) <= 1
  {
    if rows != [] {
      var rest := rows[1..];
      assert DistinctKeys(rest, k) by {
        forall i, j | 0 <= i < j < |rest| && k < |rest[i]| && k < |rest[j]| && rest[i][k] != Missing
          ensures rest[i][k] != rest[j][k]
        {
          assert rest[i] == rows[i + 1] && rest[j] == rows[j + 1];
        }
      }
      if k < |rows[0]| && rows[0][k] == key {
        forall i | 0 <= i < |rest| && k < |rest[i]| ensures rest[i][k] != key {
          assert rest[i] == rows[i + 1];
        }
        OccurrencesAbsent(rest, k, key);
      } else {
        OccurrencesOfDistinct(rest, k, key);
      }
    }
  }

  /** The "No duplicate entries" branch is taken exactly when no two rows
      share a present key. */
  lemma NoDuplicatesIffDistinct(f: Frame)
    ensures FindDuplicates(f) == NoDuplicateEntries <==> DistinctKeys(f.rows, KeyColumn)
  {
    var rows := f.rows;
    if DistinctKeys(rows, KeyColumn) {
      forall row | row in rows ensures !Duplicated(rows, KeyColumn, row) {
        if KeyColumn < |row| && row[KeyColumn] != Missing {
          OccurrencesOfDistinct(rows, KeyColumn, row[KeyColumn]);
        }
      }
      FilterNone(rows, RepeatedIn(rows, KeyColumn));
    } else {
      var i, j :| 0 <= i < j < |rows| && KeyColumn < |rows[i]| && KeyColumn < |rows[j]|
        && rows[i][KeyColumn] != Missing && rows[i][KeyColumn] == rows[j][KeyColumn];
      OccurrencesOfPair(rows, KeyColumn, i, j);
      assert Duplicated(rows, KeyColumn, rows[i]);
    }
  }

  /** The keys of the duplicate groups: set(dup_emails.iloc[:, 5]), which
      is already contained in the table's own key set. */
  function DuplicateKeys(f: Frame): set<Cell> {
    set row | row in f.rows && Duplicated(f.rows, KeyColumn, row) :: row[KeyColumn]
  }

  function RepeatedKey(rows: seq<Row>, k: nat): Cell -> bool { key => Occurrences(rows, k, key) > 1 }

  /** The warning loop as intended (lines 51-53, printing `str(dup)`): the
      keys, in iteration order, that occur in more than one row. */
  method WarnDuplicates(f: Frame, keys: seq<Cell>) returns (warned: seq<Cell>)
    ensures warned == Filter(keys, RepeatedKey(f.rows, KeyColumn))
  {
    warned := [];
    ghost var repeated := RepeatedKey(f.rows, KeyColumn);
    for n := 0 to |keys|
      invariant warned == Filter(keys[..n], repeated)
    {
      assert keys[..n + 1] == keys[..n] + [keys[n]];
      FilterSnoc(keys[..n], keys[n], repeated);
      if Occurrences(f.rows, KeyColumn, keys[n]) > 1 {
        warned := warned + [keys[n]];
      }
    }
    assert keys[..|keys|] == keys;
  }

  /** Over the duplicate keys the loop's test always passes, so a warning
      is printed for every one of them. */
  lemma DuplicateKeysAllWarned(f: Frame, keys: seq<Cell>)
    requires forall n :: 0 <= n < |keys| ==> keys[n] in DuplicateKeys(f)
    ensures Filter(keys, RepeatedKey(f.rows, KeyColumn)) == keys
  {
    FilterKeepsAll(keys, RepeatedKey(f.rows, KeyColumn));
  }

  /** Line 53 raises TypeError on this key: it occurs in more than one row,
      so the warning is built, but it is not text, so the string
      concatenation fails. */
  predicate Unprintable(rows: seq<Row>, key: Cell) {
    Occurrences(rows, KeyColumn, key) > 1 && !key.Text?
  }

  /** Position of the first key the loop raises on, or |keys| when it runs
      to the end. */
  function FirstUnprintable(rows: seq<Row>, keys: seq<Cell>): (n: nat)
    ensures n <= |keys|
    ensures forall j :: 0 <= j < n ==> !Unprintable(rows, keys[j])
    ensures n < |keys| ==> Unprintable(rows, keys[n])
  {
    if keys == [] || Unprintable(rows, keys[0]) then 0
    else 1 + FirstUnprintable(rows, keys[1..])
  }

  /** The warning loop as written (lines 51-55): it warns the repeated keys
      up to the first one that is not text, where `"Warning duplicate: " +
      dup` raises and the bare `except:` prints "No duplicate entries". */
  method WarnDuplicatesAsWritten(f: Frame, keys: seq<Cell>) returns (warned: seq<Cell>, raised: bool)
    ensures raised <==> FirstUnprintable(f.rows, keys) < |keys|
    ensures warned == Filter(keys[..FirstUnprintable(f.rows, keys)], RepeatedKey(f.rows, KeyColumn))
  {
    warned, raised := [], false;
    ghost var repeated := RepeatedKey(f.rows, KeyColumn);
    ghost var stop := FirstUnprintable(f.rows, keys);
    var n := 0;
    while n < |keys|
      invariant n <= stop
      invariant warned == Filter(keys[..n], repeated)
    {
      var key := keys[n];
      if Unprintable(f.rows, key) {
        StopsAt(f.rows, keys, n);
        raised := true;
        return;
      }
      PassesBeyond(f.rows, keys, n);
      WarnStep(keys, n, repeated);
      assert repeated(key) == (Occurrences(f.rows, KeyColumn, key) > 1);
      if Occurrences(f.rows, KeyColumn, key) > 1 {
        warned := warned + [key];
      }
      n := n + 1;
    }
    assert keys[..n] == keys;
  }

  /** The loop raises at the first key it cannot print. */
  lemma StopsAt(rows: seq<Row>, keys: seq<Cell>, n: nat)
    requires n < |keys| && n <= FirstUnprintable(rows, keys) && Unprintable(rows, keys[n])
    ensures FirstUnprintable(rows, keys) == n
  {
  }

  /** A key the loop prints is before the first one it cannot print. */
  lemma PassesBeyond(rows: seq<Row>, keys: seq<Cell>, n: nat)
    requires n < |keys| && n <= FirstUnprintable(rows, keys) && !Unprintable(rows, keys[n])
    ensures n < FirstUnprintable(rows, keys)
  {
  }

  /** One more key through the loop of a warning method. */
  lemma WarnStep(keys: seq<Cell>, n: nat, repeated: Cell -> bool)
    requires n < |keys|
    ensures Filter(keys[..n + 1], repeated) ==
      Filter(keys[..n], repeated) + (if repeated(keys[n]) then [keys[n]] else [])
  {
    assert keys[..n + 1] == keys[..n] + [keys[n]];
    FilterSnoc(keys[..n], keys[n], repeated);
  }

  /** Two respondents sharing a numeric key form a duplicate group, so
      Duplicate-Entries.csv is written; yet a loop over keys that include
      that key raises, and the script reports "No duplicate entries". */
  lemma NumericDuplicateHidden(f: Frame, i: nat, j: nat, n: int, keys: seq<Cell>)
    requires i < j < |f.rows| && KeyColumn < |f.rows[i]| && KeyColumn < |f.rows[j]|
    requires f.rows[i][KeyColumn] == Num(n) && f.rows[j][KeyColumn] == Num(n)
    requires Num(n) in keys
    ensures FindDuplicates(f).DuplicateEntries? && Num(n) in DuplicateKeys(f)
    ensures FirstUnprintable(f.rows, keys) < |keys|
  {
    OccurrencesOfPair(f.rows, KeyColumn, i, j);
    assert Duplicated(f.rows, KeyColumn, f.rows[i]);
    var m :| 0 <= m < |keys| && keys[m] == Num(n);
    assert Unprintable(f.rows, keys[m]);
  }

  // ---------------------------------------------------------------------
  // Completeness tally and eligibility (lines 43, 58-59)

  /** At most a fifth of the table's columns are missing in the row: the
      script's `missing <= len(columns) * .2`, in integers. */
  predicate Eligible(row: Row, width: nat) { 5 * MissingCount(row) <= width }

  function EligibleIn(width: nat): Row -> bool { r => Eligible(r, width) }

  /** The row with its 'Total Incomplete Answers' cell appended. */
  function Tally(row: Row): Row { row + [Num(MissingCount(row))] }

  function TallyRows(rows: seq<Row>): (r: seq<Row>)
    ensures |r| == |rows| && forall i :: 0 <= i < |rows| ==> r[i] == Tally(rows[i])
  {
    seq(|rows|, i requires 0 <= i < |rows| => Tally(rows[i]))
  }

  /** The table with the tally column added: every row keeps its cells
      and gains its own count of missing answers under the new last label. */
  function Tallied(f: Frame): (t: Frame)
    requires Rectangular(f)
    ensures Rectangular(t)
    ensures t.columns == f.columns + [TallyLabel] && |t.rows| == |f.rows|
    ensures forall i :: 0 <= i < |f.rows| ==>
      t.rows[i][..|f.columns|] == f.rows[i] && t.rows[i][|f.columns|] == Num(MissingCount(f.rows[i]))
  {
    Frame(f.columns + [TallyLabel], TallyRows(f.rows))
  }

  /** The filter of line 59, on a row that carries its tally last. */
  predicate TallyWithin(row: Row, width: nat) {
    |row| > 0 && row[|row| - 1].Num? && 5 * row[|row| - 1].n <= width
  }

  function WithinThreshold(width: nat): Row -> bool { r => TallyWithin(r, width) }

  /** The eligible table: the tallied rows within the threshold, which is
      taken from the column count before the tally column is added. */
  function EligiblePool(f: Frame): (e: Frame)
    requires Rectangular(f)
    ensures Rectangular(e) && |e.rows| <= |f.rows|
  {
    var t := Tallied(f);
    var e := Frame(t.columns, Filter(t.rows, WithinThreshold(|f.columns|)));
    assert Rectangular(e) by {
      forall i | 0 <= i < |e.rows| ensures |e.rows[i]| == |e.columns| {
        assert e.rows[i] in t.rows;
      }
    }
    e
  }

  lemma TallyRowsAppend(a: seq<Row>, b: seq<Row>)
    ensures TallyRows(a + b) == TallyRows(a) + TallyRows(b)
  {
  }

  lemma {:induction false} FilterTallied(rows: seq<Row>, width: nat)
    ensures Filter(TallyRows(rows), WithinThreshold(width)) == TallyRows(Filter(rows, EligibleIn(width)))
  {
    if rows != [] {
      var w, e := WithinThreshold(width), EligibleIn(width);
      var head := [rows[0]];
      assert TallyRows(rows) == TallyRows(head) + TallyRows(rows[1..]);
      FilterAppend(TallyRows(head), TallyRows(rows[1..]), w);
      FilterTallied(rows[1..], width);
      assert rows == head + rows[1..];
      FilterAppend(head, rows[1..], e);
      TallyRowsAppend(Filter(head, e), Filter(rows[1..], e));
      FilterTalliedHead(rows[0], width);
    }
  }

  /** The step of FilterTallied for a single row: its tally is within the
      threshold exactly when the row is eligible. */
  lemma FilterTalliedHead(row: Row, width: nat)
    ensures Filter(TallyRows([row]), WithinThreshold(width)) == TallyRows(Filter([row], EligibleIn(width)))
  {
    assert TallyWithin(Tally(row), width) == Eligible(row, width);
    assert TallyRows([row]) == [Tally(row)];
    assert TallyRows([row])[1..] == [] && [row][1..] == [];
  }

  /** The eligible table is, in order, exactly the tallied rows of the
      merged table whose missing count is within a fifth of its columns:
      no qualifying row is dropped and no other row is kept. */
  lemma EligiblePoolExact(f: Frame)
    requires Rectangular(f)
    ensures EligiblePool(f).rows == TallyRows(Filter(f.rows, EligibleIn(|f.columns|)))
    ensures forall row :: row in f.rows ==>
      (Tally(row) in EligiblePool(f).rows <==> Eligible(row, |f.columns|))
  {
    FilterTallied(f.rows, |f.columns|);
    forall row | row in f.rows
      ensures Tally(row) in EligiblePool(f).rows <==> Eligible(row, |f.columns|)
    {
      var kept := Filter(f.rows, EligibleIn(|f.columns|));
      if Tally(row) in EligiblePool(f).rows {
        var i :| 0 <= i < |kept| && TallyRows(kept)[i] == Tally(row);
        assert kept[i] + [Num(MissingCount(kept[i]))] == row + [Num(MissingCount(row))];
        assert kept[i] == row by {
          assert |kept[i]| == |row|;
          assert forall n :: 0 <= n < |row| ==> kept[i][n] == Tally(kept[i])[n];
        }
      }
      if Eligible(row, |f.columns|) {
        assert row in kept;
        var i :| 0 <= i < |kept| && kept[i] == row;
        assert TallyRows(kept)[i] == Tally(row);
      }
    }
  }

  // ---------------------------------------------------------------------
  // The raffle (lines 61-63)

  /** randint(0, len(eligible)) picks a draw in 0..|pool| inclusive, and
      eligible.iloc[draw, 4], eligible.iloc[draw, 5] are printed; None is the
      IndexError raised for a draw or a column past the end. */
  function RaffleAsWritten(pool: seq<Row>, draw: nat): (r: Option<(Cell, Cell)>)
    requires draw <= |pool|
    ensures r.Some? <==> draw < |pool| && KeyColumn < |pool[draw]|
    ensures r.Some? ==> r.value == (pool[draw][NameColumn], pool[draw][KeyColumn])
  {
    if draw < |pool| && KeyColumn < |pool[draw]|
    then Some((pool[draw][NameColumn], pool[draw][KeyColumn]))
    else None
  }

  /** The draw equal to the pool size is in randint's range and always
      fails; with no eligible respondent every draw fails. */
  lemma RaffleAsWrittenOverruns(pool: seq<Row>)
    ensures RaffleAsWritten(pool, |pool|).None?
    ensures pool == [] ==> forall draw: nat :: draw <= |pool| ==> RaffleAsWritten(pool, draw).None?
  {
  }

  datatype RaffleError = NoEligibleRespondents | IdentifierColumnsMissing

  /** The draw as intended: uniform over the pool's rows (draw in
      0..|pool| - 1), with an empty pool reported instead of indexed. */
  function Raffle(pool: seq<Row>, draw: nat): (r: Result<(Cell, Cell), RaffleError>)
    requires pool != [] ==> draw < |pool|
    ensures r == Err(NoEligibleRespondents) <==> pool == []
    ensures r == Err(IdentifierColumnsMissing) <==> pool != [] && |pool[draw]| <= KeyColumn
    ensures r.Ok? ==> r.value == (pool[draw][NameColumn], pool[draw][KeyColumn])
  {
    if pool == [] then Err(NoEligibleRespondents)
    else if |pool[draw]| <= KeyColumn then Err(IdentifierColumnsMissing)
    else Ok((pool[draw][NameColumn], pool[draw][KeyColumn]))
  }

  /** The winner is the draw-th eligible respondent of the merged table, in
      table order, named by that row's fifth and sixth cells (with the tally
      appended); the pool has one row per eligible respondent, so a uniform
      draw picks a uniform eligible respondent. */
  lemma RaffleWinnerEligible(f: Frame, draw: nat)
    requires Rectangular(f)
    requires EligiblePool(f).rows != [] ==> draw < |EligiblePool(f).rows|
    ensures |Filter(f.rows, EligibleIn(|f.columns|))| == |EligiblePool(f).rows|
    ensures Raffle(EligiblePool(f).rows, draw).Ok? ==>
      var kept := Filter(f.rows, EligibleIn(|f.columns|));
      draw < |kept| && Eligible(kept[draw], |f.columns|) && KeyColumn < |Tally(kept[draw])|
      && Raffle(EligiblePool(f).rows, draw).value == (Tally(kept[draw])[NameColumn], Tally(kept[draw])[KeyColumn])
  {
    EligiblePoolExact(f);
    var kept := Filter(f.rows, EligibleIn(|f.columns|));
    var pool := EligiblePool(f).rows;
    if pool != [] && KeyColumn < |pool[draw]| {
      assert kept[draw] in kept;
      assert pool[draw] == Tally(kept[draw]);
    }
  }
}
