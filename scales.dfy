/** The scale recoder: label-to-code tables for the survey's Likert,
    experience, software, web-design and yes/no questions, the column
    positions each applies to, and the sequence of recoding passes the
    script runs over the merged table. */
module Scales {
  import opened Frames

  /** A fixed table from answer labels to numeric codes. */
  type Scale = map<string, int>

  /** The cell-wise lookup of formatScale: a text cell holding a label of the
      scale becomes that label's code; every other cell is kept as it is. */
  function RecodeCell(c: Cell, scale: Scale): Cell {
    if c.Text? && c.s in scale then Num(scale[c.s]) else c
  }

  /** One row with the cells at the listed positions recoded. */
  function RecodeRow(row: Row, cols: seq<nat>, scale: Scale): Row {
    seq(|row|, j requires 0 <= j < |row| => if j in cols then RecodeCell(row[j], scale) else row[j])
  }

  /** formatScale(cols, data, scale) as a function of the rows. */
  function Recode(rows: seq<Row>, cols: seq<nat>, scale: Scale): seq<Row> {
    seq(|rows|, i requires 0 <= i < |rows| => RecodeRow(rows[i], cols, scale))
  }

  /** A listed cell becomes scale[s] exactly when it is a text key s; every
      other cell, and every cell outside the listed columns, is unchanged;
      the number of rows and of cells per row is preserved. */
  lemma RecodeCellwise(rows: seq<Row>, cols: seq<nat>, scale: Scale)
    ensures |Recode(rows, cols, scale)| == |rows|
    ensures forall i :: 0 <= i < |rows| ==> |Recode(rows, cols, scale)[i]| == |rows[i]|
    ensures forall i, j :: 0 <= i < |rows| && 0 <= j < |rows[i]| ==>
      Recode(rows, cols, scale)[i][j] ==
        if j in cols && rows[i][j].Text? && rows[i][j].s in scale
        then Num(scale[rows[i][j].s]) else rows[i][j]
  {
  }

  /** After a pass no listed cell still holds a label of the scale. */
  lemma RecodeLeavesNoKeys(rows: seq<Row>, cols: seq<nat>, scale: Scale)
    ensures forall i, j :: 0 <= i < |rows| && 0 <= j < |rows[i]| && j in cols ==>
      var c := Recode(rows, cols, scale)[i][j]; !(c.Text? && c.s in scale)
  {
  }

  /** Recoding twice with the same scale is recoding once. */
  lemma RecodeIdempotent(rows: seq<Row>, cols: seq<nat>, scale: Scale)
    ensures Recode(Recode(rows, cols, scale), cols, scale) == Recode(rows, cols, scale)
  {
    var once := Recode(rows, cols, scale);
    forall i | 0 <= i < |rows|
      ensures Recode(once, cols, scale)[i] == once[i]
    {
      assert RecodeRow(once[i], cols, scale) == once[i];
    }
  }

  /** Two passes over one cell act as one pass with the merged scale in which
      the first pass's labels win: a recoded cell is a number, and numbers
      are not labels of any scale. */
  lemma RecodeCellCompose(c: Cell, first: Scale, second: Scale)
    ensures RecodeCell(RecodeCell(c, first), second) == RecodeCell(c, second + first)
  {
  }

  // ---------------------------------------------------------------------
  // The survey's scales (surveySetup.py lines 67, 72, 76, 80, 84, 88)

  const DefaultScale: Scale := map[
    "Agree very much" := 6, "Agree pretty much" := 5, "Agree a little" := 4,
    "Disagree a little" := 3, "Disagree pretty much" := 2, "Disagree very much" := 1]

  const ReverseScale: Scale := map[
    "Agree very much" := 1, "Agree pretty much" := 2, "Agree a little" := 3,
    "Disagree a little" := 4, "Disagree pretty much" := 5, "Disagree very much" := 6]

  const ExpScale: Scale := map[
    "I have personal experience with this" := 2, "I have knowledge of this" := 1]

  const SwScale: Scale := map[
    "I have heard or read about this" := 1, "I have done this before" := 2]

  /** Two spellings of the second statement map to the same code. */
  const WebScale: Scale := map[
    "I\U{2019}m familiar with this issue" := 1,
    "I have taken this issue into account to make the site more accessible for people with disabilities" := 2,
    "I have taken this issue into account to make it more accessible for people with disabilities" := 2]

  const BooleanScale: Scale := map["Yes" := 1, "No" := 0]

  /** The reverse Likert table has the labels of the default one, each with
      the mirrored code 7 - d, so it inverts the rank order of the labels. */
  lemma ReverseMirrorsDefault()
    ensures ReverseScale.Keys == DefaultScale.Keys
    ensures forall l :: l in ReverseScale ==> ReverseScale[l] == 7 - DefaultScale[l]
    ensures forall l, m :: l in DefaultScale && m in DefaultScale ==>
      (DefaultScale[l] < DefaultScale[m] <==> ReverseScale[l] > ReverseScale[m])
  {
  }

  /** Codes lie in 1..6 for Likert items, 1..2 for experience, software and
      web items, and 0..1 for yes/no items. */
  lemma ScaleRanges()
    ensures forall l :: l in DefaultScale ==> 1 <= DefaultScale[l] <= 6
    ensures forall l :: l in ReverseScale ==> 1 <= ReverseScale[l] <= 6
    ensures forall l :: l in ExpScale ==> 1 <= ExpScale[l] <= 2
    ensures forall l :: l in SwScale ==> 1 <= SwScale[l] <= 2
    ensures forall l :: l in WebScale ==> 1 <= WebScale[l] <= 2
    ensures forall l :: l in BooleanScale ==> 0 <= BooleanScale[l] <= 1
  {
  }

  // ---------------------------------------------------------------------
  // Column positions of each pass (surveySetup.py lines 68, 77, 81, 85, 89)

  /** range(lo, hi) */
  function Range(lo: nat, hi: nat): (r: seq<nat>)
    ensures forall j :: j in r <==> lo <= j < hi
  {
    if hi <= lo then [] else Range(lo, hi - 1) + [hi - 1]
  }

  /** The three reverse-coded Likert positions (questions 10, 14 and 15). */
  predicate ReverseCodedPosition(j: nat) { j == 17 || j == 21 || j == 22 }

  /** The default Likert positions of the merged table:
      [i for i in range(8, 28) if i not in (17, 21, 22)]. */
  function IdpColumns(): (r: seq<nat>)
    ensures forall j :: j in r <==> 8 <= j < 28 && !ReverseCodedPosition(j)
  {
    [8, 9, 10, 11, 12, 13, 14, 15, 16, 18, 19, 20, 23, 24, 25, 26, 27]
  }

  function ExpColumns(): (r: seq<nat>)
    ensures forall j :: j in r <==> 29 <= j < 37
  {
    Range(29, 37)
  }

  function SwColumns(): (r: seq<nat>)
    ensures forall j :: j in r <==> 38 <= j < 46
  {
    Range(38, 46)
  }

  function WebColumns(): (r: seq<nat>)
    ensures forall j :: j in r <==> 46 <= j < 62
  {
    Range(46, 62)
  }

  function BooleanColumns(): (r: seq<nat>)
    ensures forall j :: j in r <==> j == 62 || j == 63
  {
    [62, 63]
  }

  /** The column labels of the three reverse-coded items, after the script
      has stripped punctuation from the header. */
  const ReverseCodedLabels: seq<string> := [
    "I am aware of the problems that disabled people face",
    "I dont pity them",
    "After frequent contact I find I just notice the person not the disability"]

  function LabelIn(columns: seq<string>, labels: seq<string>): nat -> bool {
    (j: nat) => j < |columns| && columns[j] in labels
  }

  /** The positions of the columns whose label is one of `labels`: the
      columns a DataFrame.replace({label: scale, ...}) call touches. */
  function NamedColumns(columns: seq<string>, labels: seq<string>): (r: seq<nat>)
    ensures forall j: nat :: j in r <==> j < |columns| && columns[j] in labels
  {
    Indices(|columns|, LabelIn(columns, labels))
  }

  /** The export's layout of the reverse-coded items: exactly the columns
      at positions 17, 21 and 22 carry their labels. */
  predicate ReverseCodedLayout(columns: seq<string>) {
    forall p :: 0 <= p < |columns| ==> (columns[p] in ReverseCodedLabels <==> ReverseCodedPosition(p))
  }

  /** With that layout the label replace touches exactly the three
      reverse-coded positions that the default Likert pass leaves out, so
      the two passes recode disjoint cells. */
  lemma DefaultAndReversePassesDisjoint(columns: seq<string>)
    requires ReverseCodedLayout(columns)
    ensures forall j: nat :: j in NamedColumns(columns, ReverseCodedLabels) <==>
      j < |columns| && ReverseCodedPosition(j)
    ensures forall j: nat :: !(j in IdpColumns() && j in NamedColumns(columns, ReverseCodedLabels))
  {
  }

  // ---------------------------------------------------------------------
  // The recoding passes, applied in order

  /** One recoding pass: a scale applied to a list of column positions. */
  datatype Pass = Pass(cols: seq<nat>, scale: Scale)

  function ApplyPasses(rows: seq<Row>, passes: seq<Pass>): seq<Row>
    decreases |passes|
  {
    if passes == [] then rows
    else ApplyPasses(Recode(rows, passes[0].cols, passes[0].scale), passes[1..])
  }

  /** The single scale that the passes amount to at column j: the union of
      the scales of the passes listing j, where an earlier pass's labels win. */
  function EffectiveScale(passes: seq<Pass>, j: nat): Scale
    decreases |passes|
  {
    if passes == [] then map[]
    else if j in passes[0].cols then EffectiveScale(passes[1..], j) + passes[0].scale
    else EffectiveScale(passes[1..], j)
  }

  /** Running the passes in sequence recodes every cell once, with the
      effective scale of its column. */
  lemma {:induction false} ApplyPassesCellwise(rows: seq<Row>, passes: seq<Pass>)
    ensures |ApplyPasses(rows, passes)| == |rows|
    ensures forall i :: 0 <= i < |rows| ==> |ApplyPasses(rows, passes)[i]| == |rows[i]|
    ensures forall i, j :: 0 <= i < |rows| && 0 <= j < |rows[i]| ==>
      ApplyPasses(rows, passes)[i][j] == RecodeCell(rows[i][j], EffectiveScale(passes, j))
    decreases |passes|
  {
    if passes != [] {
      var p := passes[0];
      var next := Recode(rows, p.cols, p.scale);
      ApplyPassesCellwise(next, passes[1..]);
      forall i, j | 0 <= i < |rows| && 0 <= j < |rows[i]|
        ensures ApplyPasses(rows, passes)[i][j] == RecodeCell(rows[i][j], EffectiveScale(passes, j))
      {
        if j in p.cols {
          RecodeCellCompose(rows[i][j], p.scale, EffectiveScale(passes[1..], j));
        }
      }
    }
  }

  /** Running a sequence of passes over its own output changes nothing, so
      repeated runs of the recoder are harmless. */
  lemma ApplyPassesIdempotent(rows: seq<Row>, passes: seq<Pass>)
    ensures ApplyPasses(ApplyPasses(rows, passes), passes) == ApplyPasses(rows, passes)
  {
    var once := ApplyPasses(rows, passes);
    ApplyPassesCellwise(rows, passes);
    ApplyPassesCellwise(once, passes);
    var twice := ApplyPasses(once, passes);
    forall i | 0 <= i < |once|
      ensures twice[i] == once[i]
    {
      forall j | 0 <= j < |once[i]|
        ensures twice[i][j] == once[i][j]
      {
        var s := EffectiveScale(passes, j);
        assert RecodeCell(RecodeCell(rows[i][j], s), s) == RecodeCell(rows[i][j], s);
      }
    }
  }

  /** Running one more pass recodes the result of the earlier ones. */
  lemma {:induction false} ApplyPassesSnoc(rows: seq<Row>, passes: seq<Pass>, p: Pass)
    ensures ApplyPasses(rows, passes + [p]) == Recode(ApplyPasses(rows, passes), p.cols, p.scale)
    decreases |passes|
  {
    if passes == [] {
      assert passes + [p] == [p];
      assert [p][1..] == [];
    } else {
      assert (passes + [p])[0] == passes[0];
      assert (passes + [p])[1..] == passes[1..] + [p];
      ApplyPassesSnoc(Recode(rows, passes[0].cols, passes[0].scale), passes[1..], p);
    }
  }

  /** The first k + 1 passes are the first k followed by pass k. */
  lemma ApplyPassesPrefix(rows: seq<Row>, passes: seq<Pass>, k: nat)
    requires k < |passes|
    ensures ApplyPasses(rows, passes[..k + 1]) ==
      Recode(ApplyPasses(rows, passes[..k]), passes[k].cols, passes[k].scale)
  {
    assert passes[..k + 1] == passes[..k] + [passes[k]];
    ApplyPassesSnoc(rows, passes[..k], passes[k]);
  }

  /** Every listed position is a column of a table `width` columns wide,
      so that data.iloc[:, cols] does not raise IndexError. */
  predicate Fits(cols: seq<nat>, width: nat) {
    forall k :: 0 <= k < |cols| ==> cols[k] < width
  }

  /** How many of the passes run before the first whose positions do not
      fit the table, where the script stops with IndexError. */
  function CompletedPasses(passes: seq<Pass>, width: nat): (n: nat)
    ensures n <= |passes|
    ensures forall k :: 0 <= k < n ==> Fits(passes[k].cols, width)
    ensures n < |passes| ==> !Fits(passes[n].cols, width)
  {
    if passes == [] || !Fits(passes[0].cols, width) then 0
    else 1 + CompletedPasses(passes[1..], width)
  }

  /** The count of completed passes is determined by where the first
      misfit is. */
  lemma {:induction false} CompletedPassesAt(passes: seq<Pass>, width: nat, k: nat)
    requires k <= |passes|
    requires forall i :: 0 <= i < k ==> Fits(passes[i].cols, width)
    requires k < |passes| ==> !Fits(passes[k].cols, width)
    ensures CompletedPasses(passes, width) == k
  {
    if k > 0 {
      CompletedPassesAt(passes[1..], width, k - 1);
    }
  }

  /** A list of positions fits a table exactly when its largest one does. */
  lemma FitsByLargest(cols: seq<nat>, width: nat, top: nat)
    requires top in cols && forall j :: j in cols ==> j <= top
    ensures Fits(cols, width) <==> top < width
  {
    if Fits(cols, width) {
      var k :| 0 <= k < |cols| && cols[k] == top;
    }
    if top < width {
      forall k | 0 <= k < |cols| ensures cols[k] < width {
        assert cols[k] in cols;
      }
    }
  }

  /** The positional passes that follow the label replace: experience,
      software, web-design and yes/no questions. */
  function PositionalPasses(): seq<Pass> {
    [Pass(ExpColumns(), ExpScale),
     Pass(SwColumns(), SwScale),
     Pass(WebColumns(), WebScale),
     Pass(BooleanColumns(), BooleanScale)]
  }

  /** The script's passes over the merged table, in order: default Likert
      positions, then the reverse-coded items by label, then the positional
      passes. */
  function SurveyPasses(columns: seq<string>): seq<Pass> {
    [Pass(IdpColumns(), DefaultScale)]
      + ([Pass(NamedColumns(columns, ReverseCodedLabels), ReverseScale)] + PositionalPasses())
  }

  /** The script's six passes, one by one. */
  lemma SurveyPassesLayout(columns: seq<string>)
    ensures |SurveyPasses(columns)| == 6
    ensures SurveyPasses(columns)[0] == Pass(IdpColumns(), DefaultScale)
    ensures SurveyPasses(columns)[1] == Pass(NamedColumns(columns, ReverseCodedLabels), ReverseScale)
    ensures SurveyPasses(columns)[2] == Pass(ExpColumns(), ExpScale)
    ensures SurveyPasses(columns)[3] == Pass(SwColumns(), SwScale)
    ensures SurveyPasses(columns)[4] == Pass(WebColumns(), WebScale)
    ensures SurveyPasses(columns)[5] == Pass(BooleanColumns(), BooleanScale)
  {
  }

  /** The widths the script's passes need: 28 columns for the default
      Likert pass, none for the label replace, then 37, 46, 62 and 64. */
  lemma SurveyPassesFit(columns: seq<string>, width: nat)
    ensures Fits(IdpColumns(), width) <==> 28 <= width
    ensures Fits(NamedColumns(columns, ReverseCodedLabels), |columns|)
    ensures Fits(ExpColumns(), width) <==> 37 <= width
    ensures Fits(SwColumns(), width) <==> 46 <= width
    ensures Fits(WebColumns(), width) <==> 62 <= width
    ensures Fits(BooleanColumns(), width) <==> 64 <= width
  {
    FitsByLargest(IdpColumns(), width, 27);
    var named := NamedColumns(columns, ReverseCodedLabels);
    forall k | 0 <= k < |named| ensures named[k] < |columns| {
      assert named[k] in named;
    }
    FitsByLargest(ExpColumns(), width, 36);
    FitsByLargest(SwColumns(), width, 45);
    FitsByLargest(WebColumns(), width, 61);
    FitsByLargest(BooleanColumns(), width, 63);
  }

  /** The recoded table that surveySetup.py writes out. */
  function RecodeSurvey(f: Frame): Frame {
    Frame(f.columns, ApplyPasses(f.rows, SurveyPasses(f.columns)))
  }

  /** The scale of the positional pass listing column j, if any. */
  function PositionalScale(j: nat): Scale {
    if 29 <= j < 37 then ExpScale
    else if 38 <= j < 46 then SwScale
    else if 46 <= j < 62 then WebScale
    else if j == 62 || j == 63 then BooleanScale
    else map[]
  }

  /** Column-by-column reference table of the survey's recoding: default
      Likert positions use the default scale whatever their label; a column
      carrying a reverse-coded label otherwise uses the reverse scale, merged
      with the scale of any positional pass that also lists it. */
  function ColumnScale(columns: seq<string>, j: nat): Scale {
    if 8 <= j < 28 && !ReverseCodedPosition(j) then DefaultScale
    else if j < |columns| && columns[j] in ReverseCodedLabels then PositionalScale(j) + ReverseScale
    else PositionalScale(j)
  }

  lemma UnionWithEmpty(s: Scale)
    ensures map[] + s == s
  {
  }

  /** The positional passes never share a column, so at each column they
      amount to the one scale of the pass listing it. */
  lemma PositionalPassesScale(j: nat)
    ensures EffectiveScale(PositionalPasses(), j) == PositionalScale(j)
  {
    var ps := PositionalPasses();
    var yesNo, web, sw, exp := ps[3..], ps[2..], ps[1..], ps;
    assert yesNo == [Pass(BooleanColumns(), BooleanScale)] && yesNo[1..] == [];
    assert web == [Pass(WebColumns(), WebScale)] + yesNo;
    assert sw == [Pass(SwColumns(), SwScale)] + web;
    assert exp == [Pass(ExpColumns(), ExpScale)] + sw;
    var e3 := EffectiveScale(yesNo, j);
    var e2 := EffectiveScale(web, j);
    var e1 := EffectiveScale(sw, j);
    var e0 := EffectiveScale(exp, j);
    assert e2 == if j in WebColumns() then e3 + WebScale else e3;
    assert e1 == if j in SwColumns() then e2 + SwScale else e2;
    assert e0 == if j in ExpColumns() then e1 + ExpScale else e1;
    if j == 62 || j == 63 {
      UnionWithEmpty(BooleanScale);
    } else if 46 <= j < 62 {
      UnionWithEmpty(WebScale);
    } else if 38 <= j < 46 {
      UnionWithEmpty(SwScale);
    } else if 29 <= j < 37 {
      UnionWithEmpty(ExpScale);
    }
  }

  /** The label replace followed by the positional passes: a column with
      a reverse-coded label gets the reverse scale, merged under it with the
      scale of the positional pass listing it, if any. */
  lemma LabelAndPositionalScale(columns: seq<string>, j: nat)
    ensures EffectiveScale([Pass(NamedColumns(columns, ReverseCodedLabels), ReverseScale)] + PositionalPasses(), j)
      == if j < |columns| && columns[j] in ReverseCodedLabels then PositionalScale(j) + ReverseScale
         else PositionalScale(j)
  {
    EffectiveScaleCons(Pass(NamedColumns(columns, ReverseCodedLabels), ReverseScale), PositionalPasses(), j);
    PositionalPassesScale(j);
  }

  /** The six passes amount, at every column, to the reference table. In
      particular a label override does not take precedence over the default
      pass: that pass runs first and leaves numbers, which no label matches. */
  lemma SurveyScaleByColumn(columns: seq<string>, j: nat)
    ensures EffectiveScale(SurveyPasses(columns), j) == ColumnScale(columns, j)
  {
    var rest := [Pass(NamedColumns(columns, ReverseCodedLabels), ReverseScale)] + PositionalPasses();
    EffectiveScaleCons(Pass(IdpColumns(), DefaultScale), rest, j);
    LabelAndPositionalScale(columns, j);
    if j in IdpColumns() {
      var e1 := EffectiveScale(rest, j);
      assert PositionalScale(j) == map[];
      UnionWithEmpty(ReverseScale);
      ReverseMirrorsDefault();
      assert e1.Keys <= DefaultScale.Keys;
      UnionAbsorbed(e1, DefaultScale);
    }
  }

  /** One step of EffectiveScale on a list written as head and tail. */
  lemma EffectiveScaleCons(p: Pass, rest: seq<Pass>, j: nat)
    ensures EffectiveScale([p] + rest, j) ==
      if j in p.cols then EffectiveScale(rest, j) + p.scale else EffectiveScale(rest, j)
  {
    assert ([p] + rest)[1..] == rest;
  }

  /** A union whose right operand already holds every key is that operand. */
  lemma UnionAbsorbed(a: Scale, b: Scale)
    requires a.Keys <= b.Keys
    ensures a + b == b
  {
  }

  /** The recoded survey, cell by cell, against the reference table. */
  lemma RecodeSurveyCellwise(f: Frame)
    ensures RecodeSurvey(f).columns == f.columns && |RecodeSurvey(f).rows| == |f.rows|
    ensures forall i :: 0 <= i < |f.rows| ==> |RecodeSurvey(f).rows[i]| == |f.rows[i]|
    ensures forall i, j :: 0 <= i < |f.rows| && 0 <= j < |f.rows[i]| ==>
      RecodeSurvey(f).rows[i][j] == RecodeCell(f.rows[i][j], ColumnScale(f.columns, j))
  {
    ApplyPassesCellwise(f.rows, SurveyPasses(f.columns));
    forall j: nat
      ensures EffectiveScale(SurveyPasses(f.columns), j) == ColumnScale(f.columns, j)
    {
      SurveyScaleByColumn(f.columns, j);
    }
  }

  /** Recoding the survey twice is recoding it once. */
  lemma RecodeSurveyIdempotent(f: Frame)
    ensures RecodeSurvey(RecodeSurvey(f)) == RecodeSurvey(f)
  {
    ApplyPassesIdempotent(f.rows, SurveyPasses(f.columns));
  }

  /** Where the export holds the reverse-coded items at positions 17, 21 and
      22 (so that, by RecodeSurveyCellwise, their cells are recoded with the
      column's reference scale), a Likert answer there gets the mirrored code,
      the same answer at any other default Likert position gets the default
      code, and an answer that is not a label of the column's scale (a
      misspelt one) is kept as text. */
  lemma ReverseCodedItemsMirrored(columns: seq<string>, j: nat, answer: string)
    requires ReverseCodedLayout(columns) && j < |columns|
    ensures ReverseCodedPosition(j) && answer in DefaultScale ==>
      RecodeCell(Text(answer), ColumnScale(columns, j)) == Num(7 - DefaultScale[answer])
    ensures j in IdpColumns() && answer in DefaultScale ==>
      RecodeCell(Text(answer), ColumnScale(columns, j)) == Num(DefaultScale[answer])
    ensures answer !in ColumnScale(columns, j) ==>
      RecodeCell(Text(answer), ColumnScale(columns, j)) == Text(answer)
  {
    ReverseMirrorsDefault();
    if ReverseCodedPosition(j) {
      UnionWithEmpty(ReverseScale);
      assert ColumnScale(columns, j) == ReverseScale;
    }
  }
}
