/** The steps of surveySetup.py that overwrite a table in place: the
    formatScale helper, the e-mail column overwrite, the label replace of
    the reverse-coded items, the recoding sequence, the completeness tally
    column and the eligibility filter. A table is a list of column labels
    and an array of rows; each step is proved against the functions of
    Frames, Scales and Respondents that give its result. */
module SurveySetup {
  import opened Frames
  import opened Scales
  import opened Respondents

  class Table {
    var columns: seq<string>
    var rows: array<Row>

    /** Every row has one cell per column label. */
    ghost predicate Valid()
      reads this, rows
    {
      forall i :: 0 <= i < rows.Length ==> |rows[i]| == |columns|
    }

    /** The table as a value. */
    function Value(): (f: Frame)
      reads this, rows
      ensures f.columns == columns && |f.rows| == rows.Length
      ensures Valid() ==> Rectangular(f)
    {
      Frame(columns, rows[..])
    }

    constructor (f: Frame)
      requires Rectangular(f)
      ensures Valid() && fresh(rows)
      ensures Value() == f
    {
      columns := f.columns;
      rows := new Row[|f.rows|](i requires 0 <= i < |f.rows| => f.rows[i]);
    }

    /** Recodes the listed positions of every row, row by row. */
    method RecodeInPlace(cols: seq<nat>, scale: Scale)
      requires Valid() && Fits(cols, |columns|)
      modifies rows
      ensures Valid()
      ensures rows[..] == Recode(old(rows[..]), cols, scale)
    {
      for i := 0 to rows.Length
        invariant forall n :: 0 <= n < i ==> rows[n] == RecodeRow(old(rows[n]), cols, scale)
        invariant forall n :: i <= n < rows.Length ==> rows[n] == old(rows[n])
      {
        rows[i] := RecodeRow(rows[i], cols, scale);
      }
    }

    /** formatScale(cols, data, scale) (lines 15-16): when every position is
        a column of the table the listed cells are recoded; otherwise
        data.iloc raises IndexError before anything is written. */
    method FormatScale(cols: seq<nat>, scale: Scale) returns (ok: bool)
      requires Valid()
      modifies rows
      ensures Valid()
      ensures ok == Fits(cols, |columns|)
      ensures rows[..] == if ok then Recode(old(rows[..]), cols, scale) else old(rows[..])
    {
      ok := forall k :: 0 <= k < |cols| ==> cols[k] < |columns|;
      if ok {
        RecodeInPlace(cols, scale);
      }
    }

    /** DataFrame.replace({label: scale, ...}) (line 73): the columns
        carrying one of the labels are recoded; a label no column carries
        is ignored. */
    method ReplaceByLabel(labels: seq<string>, scale: Scale)
      requires Valid()
      modifies rows
      ensures Valid()
      ensures rows[..] == Recode(old(rows[..]), NamedColumns(columns, labels), scale)
    {
      var cols := NamedColumns(columns, labels);
      assert Fits(cols, |columns|) by {
        forall k | 0 <= k < |cols| ensures cols[k] < |columns| {
          assert cols[k] in cols;
        }
      }
      RecodeInPlace(cols, scale);
    }

    /** Lines 28-30: the eleventh column is lower-cased and stripped of the
        institutional suffixes; a table without an eleventh column raises
        IndexError and is left as it was. */
    method NormaliseEmails() returns (ok: bool)
      requires Valid()
      modifies rows
      ensures Valid()
      ensures ok <==> EmailColumn < |columns|
      ensures rows[..] == if ok then NormaliseColumn(old(rows[..]), EmailColumn) else old(rows[..])
    {
      ok := EmailColumn < |columns|;
      if !ok {
        return;
      }
      for i := 0 to rows.Length
        invariant forall n :: 0 <= n < i ==> rows[n] == NormaliseColumn(old(rows[..]), EmailColumn)[n]
        invariant forall n :: i <= n < rows.Length ==> rows[n] == old(rows[n])
      {
        rows[i] := rows[i][EmailColumn := NormaliseEmail(rows[i][EmailColumn])];
      }
    }

    /** One formatScale pass of the recoding sequence, when the passes
        before it have run; when it does not fit, the sequence ends here. */
    method RunPass(ghost start: seq<Row>, ghost passes: seq<Pass>, ghost k: nat,
                   cols: seq<nat>, scale: Scale) returns (ok: bool)
      requires Valid() && k < |passes| && passes[k] == Pass(cols, scale)
      requires forall i :: 0 <= i < k ==> Fits(passes[i].cols, |columns|)
      requires rows[..] == ApplyPasses(start, passes[..k])
      modifies rows
      ensures Valid()
      ensures ok == Fits(cols, |columns|)
      ensures ok ==> forall i :: 0 <= i <= k ==> Fits(passes[i].cols, |columns|)
      ensures ok ==> rows[..] == ApplyPasses(start, passes[..k + 1])
      ensures !ok ==> rows[..] == ApplyPasses(start, passes[..CompletedPasses(passes, |columns|)])
    {
      ok := FormatScale(cols, scale);
      if ok {
        ApplyPassesPrefix(start, passes, k);
      } else {
        CompletedPassesAt(passes, |columns|, k);
      }
    }

    /** Lines 66-89: the default Likert pass, the label replace of the
        reverse-coded items and the experience, software, web-design and
        yes/no passes, in that order. The script stops at the first pass
        whose positions the table is too narrow for; the passes before it
        have already been written. */
    method RecodeAnswers() returns (ok: bool)
      requires Valid()
      modifies rows
      ensures Valid()
      ensures ok <==> 64 <= |columns|
      ensures rows[..] == ApplyPasses(old(rows[..]),
        SurveyPasses(columns)[..CompletedPasses(SurveyPasses(columns), |columns|)])
      ensures ok ==> Value() == RecodeSurvey(old(Value()))
    {
      ghost var start := rows[..];
      ghost var passes := SurveyPasses(columns);
      SurveyPassesLayout(columns);
      SurveyPassesFit(columns, |columns|);
      assert passes[..0] == [];

      ok := RunPass(start, passes, 0, IdpColumns(), DefaultScale);
      if !ok {
        return;
      }
      ReplaceByLabel(ReverseCodedLabels, ReverseScale);
      ApplyPassesPrefix(start, passes, 1);
      assert forall i :: 0 <= i < 2 ==> Fits(passes[i].cols, |columns|);
      ok := RunPass(start, passes, 2, ExpColumns(), ExpScale);
      if !ok {
        return;
      }
      ok := RunPass(start, passes, 3, SwColumns(), SwScale);
      if !ok {
        return;
      }
      ok := RunPass(start, passes, 4, WebColumns(), WebScale);
      if !ok {
        return;
      }
      ok := RunPass(start, passes, 5, BooleanColumns(), BooleanScale);
      if !ok {
        return;
      }
      CompletedPassesAt(passes, |columns|, 6);
      assert passes[..6] == passes;
    }

    /** Line 58: a column counting each row's missing answers is added. */
    method AddIncompleteTally()
      requires Valid()
      modifies this
      ensures Valid() && fresh(rows)
      ensures Value() == Tallied(old(Value()))
    {
      ghost var before := Value();
      var source := rows;
      var tallied := new Row[source.Length];
      for i := 0 to source.Length
        modifies tallied
        invariant forall n :: 0 <= n < i ==> tallied[n] == Tally(source[n])
      {
        tallied[i] := Tally(source[i]);
      }
      assert tallied[..] == TallyRows(before.rows);
      assert forall n :: 0 <= n < tallied.Length ==> |tallied[n]| == |columns| + 1;
      columns := columns + [TallyLabel];
      rows := tallied;
      assert Value() == Frame(before.columns + [TallyLabel], TallyRows(before.rows));
    }

    /** Line 59: only the rows whose tally, in the last column, is within a
        fifth of `width` columns are kept, in order. */
    method KeepWithinThreshold(width: nat)
      requires Valid()
      modifies this
      ensures Valid() && fresh(rows) && columns == old(columns)
      ensures rows[..] == Filter(old(rows[..]), WithinThreshold(width))
    {
      ghost var before := rows[..];
      var source := rows;
      var kept: seq<Row> := [];
      for i := 0 to source.Length
        modifies {}
        invariant kept == Filter(source[..i], WithinThreshold(width))
      {
        assert source[..i + 1] == source[..i] + [source[i]];
        FilterSnoc(source[..i], source[i], WithinThreshold(width));
        if TallyWithin(source[i], width) {
          kept := kept + [source[i]];
        }
      }
      assert source[..source.Length] == before;
      var filtered := new Row[|kept|](i requires 0 <= i < |kept| => kept[i]);
      assert filtered[..] == kept;
      assert forall n :: 0 <= n < filtered.Length ==> |filtered[n]| == |columns| by {
        forall n | 0 <= n < filtered.Length ensures |filtered[n]| == |columns| {
          assert kept[n] in kept;
          var m :| 0 <= m < |before| && before[m] == kept[n];
        }
      }
      rows := filtered;
    }
  }
}
