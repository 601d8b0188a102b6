/** Adding the "Stage" column to an uploaded sheet: every row keeps what it
    had and gets (or has overwritten) a Stage cell holding its classification. */
module StageColumn {
  import opened StageClassifier

  /** A sheet row: the cells the classifier reads, and the Stage column,
      None until the column has been assigned. */
  datatype Row = Row(rec: Record, stage: Option<Stage>)

  /** Every row has a Stage cell. */
  predicate Classified(rows: seq<Row>)
  {
    forall i :: 0 <= i < |rows| ==> rows[i].stage.Some?
  }

  /** The sheet after `df["Stage"] = df.apply(determine_stage, axis=1)`:
      same rows, same cells, and each Stage cell set from its own row. */
  function WithStage(rows: seq<Row>): (r: seq<Row>)
    ensures |r| == |rows|
    ensures forall i :: 0 <= i < |r| ==> r[i].rec == rows[i].rec
    ensures forall i :: 0 <= i < |r| ==> r[i].stage == Some(DetermineStage(rows[i].rec))
  {
    seq(|rows|, i requires 0 <= i < |rows| => Row(rows[i].rec, Some(DetermineStage(rows[i].rec))))
  }

  /** After the assignment every row is classified. */
  lemma WithStageClassifies(rows: seq<Row>)
    ensures Classified(WithStage(rows))
  {
  }

  /** Assigning the column again changes nothing: the Stage cell is never
      read by the classifier. */
  lemma WithStageIdempotent(rows: seq<Row>)
    ensures WithStage(WithStage(rows)) == WithStage(rows)
  {
    var once := WithStage(rows);
    var twice := WithStage(once);
    assert |twice| == |once|;
    forall i | 0 <= i < |once|
      ensures twice[i] == once[i]
    {
      assert twice[i].rec == once[i].rec;
    }
  }

  /** A row whose Stage cell already holds its classification is left as is. */
  lemma WithStageKeepsCorrectRows(rows: seq<Row>)
    requires forall i :: 0 <= i < |rows| ==> rows[i].stage == Some(DetermineStage(rows[i].rec))
    ensures WithStage(rows) == rows
  {
    var r := WithStage(rows);
    assert |r| == |rows|;
    forall i | 0 <= i < |rows|
      ensures r[i] == rows[i]
    {
    }
  }

  /** The in-place column assignment on one sheet (website.py lines 44-45). */
  method AssignStage(sheet: array<Row>)
    modifies sheet
    ensures sheet[..] == WithStage(old(sheet[..]))
  {
    var i := 0;
    while i < sheet.Length
      invariant 0 <= i <= sheet.Length
      invariant forall k :: 0 <= k < i ==>
        sheet[k] == Row(old(sheet[k]).rec, Some(DetermineStage(old(sheet[k]).rec)))
      invariant forall k :: i <= k < sheet.Length ==> sheet[k] == old(sheet[k])
    {
      sheet[i] := Row(sheet[i].rec, Some(DetermineStage(sheet[i].rec)));
      i := i + 1;
    }
    assert sheet[..] == WithStage(old(sheet[..]));
  }
}
