/** The comparison the dashboard runs once both sheets are loaded and have
    an Email_ID column (website.py lines 44-67): classify both sheets in
    place, summarise registrations, and count stage transitions. */
module Dashboard {
  import opened StageClassifier
  import opened StageColumn
  import opened UserDiff
  import opened Transitions

  /** Adding the Stage column leaves the Email_ID column as it was. */
  lemma WithStageKeepsIds(rows: seq<Row>)
    ensures EmailIds(WithStage(rows)) == EmailIds(rows)
  {
  }

  /** The ids of the current sheet split into the new users' ids and the
      ids that reach the merge, and the latter are the ids both sheets share. */
  lemma NewAndRetainedPartition(prev: seq<Row>, curr: seq<Row>)
    requires Classified(prev) && Classified(curr)
    ensures Distinct(EmailIds(NewUsers(prev, curr))) + JoinedIds(Merge(Project(prev), Project(curr)))
            == Distinct(EmailIds(curr))
    ensures Distinct(EmailIds(NewUsers(prev, curr))) * JoinedIds(Merge(Project(prev), Project(curr)))
            == {}
    ensures JoinedIds(Merge(Project(prev), Project(curr)))
            == Distinct(EmailIds(prev)) * Distinct(EmailIds(curr))
  {
    NewUserIds(prev, curr);
    MergedIds(Project(prev), Project(curr));
    ProjectIds(prev);
    ProjectIds(curr);
  }

  /** The main block: the Stage column is assigned to both sheets in place,
      then the summary and the transition counts are computed from them.
      The two sheets may even be one array: assigning twice is harmless. */
  method Analyze(prevSheet: array<Row>, currSheet: array<Row>)
    returns (summary: seq<Metric>, shiftCounts: seq<ShiftRow>)
    modifies prevSheet, currSheet
    ensures prevSheet[..] == WithStage(old(prevSheet[..]))
    ensures currSheet[..] == WithStage(old(currSheet[..]))
    ensures summary == Summary(prevSheet[..], currSheet[..])
    ensures summary[0].count == |Distinct(EmailIds(old(prevSheet[..])))|
    ensures summary[1].count ==
      |Distinct(EmailIds(old(currSheet[..]))) - Distinct(EmailIds(old(prevSheet[..])))|
    ensures shiftCounts == ShiftCounts(Merge(Project(prevSheet[..]), Project(currSheet[..])))
  {
    ghost var prev0 := prevSheet[..];
    ghost var curr0 := currSheet[..];
    AssignStage(prevSheet);
    AssignStage(currSheet);
    if prevSheet == currSheet {
      WithStageIdempotent(prev0);
    }
    WithStageKeepsIds(prev0);
    WithStageKeepsIds(curr0);
    summary := Summary(prevSheet[..], currSheet[..]);
    var merged := Merge(Project(prevSheet[..]), Project(currSheet[..]));
    shiftCounts := ShiftCounts(merged);
  }

  /** The sheets of a worked comparison, for any three different ids.
      Previous sheet: id1 has paid, id2 has finished the academic step.
      Current sheet: id1 still paid, id2 has uploaded, id3 is new with the
      personal step done. */
  function ExamplePrev(id1: string, id2: string): seq<Row>
  {
    [Row(Record(id1, None, None, None, Some("Completed")), None),
     Row(Record(id2, None, Some("Completed"), None, None), None)]
  }

  function ExampleCurr(id1: string, id2: string, id3: string): seq<Row>
  {
    [Row(Record(id1, None, None, None, Some("Completed")), None),
     Row(Record(id2, None, None, Some("Completed"), None), None),
     Row(Record(id3, Some("Completed"), None, None, None), None)]
  }

  /** Two registrants before, one new user now. */
  lemma ExampleSummary(id1: string, id2: string, id3: string)
    requires id1 != id2 && id1 != id3 && id2 != id3
    ensures Summary(WithStage(ExamplePrev(id1, id2)), WithStage(ExampleCurr(id1, id2, id3))) ==
      [Metric("Total in Previous Sheet", 2), Metric("New Users in Current Sheet", 1)]
  {
    ExampleIds(id1, id2, id3);
    var prevIds, currIds := {id1, id2}, {id1, id2, id3};
    assert |prevIds| == 2;
    assert currIds - prevIds == {id3};
    assert |currIds - prevIds| == 1;
    SummaryOfIdSets(WithStage(ExamplePrev(id1, id2)), WithStage(ExampleCurr(id1, id2, id3)),
                    prevIds, currIds);
  }

  /** id3 is the one new user. */
  lemma ExampleNewUsers(id1: string, id2: string, id3: string)
    requires id1 != id2 && id1 != id3 && id2 != id3
    ensures Distinct(EmailIds(NewUsers(WithStage(ExamplePrev(id1, id2)),
                                       WithStage(ExampleCurr(id1, id2, id3))))) == {id3}
  {
    ExampleIds(id1, id2, id3);
    var prevIds, currIds := {id1, id2}, {id1, id2, id3};
    assert currIds - prevIds == {id3};
    NewIdsOfIdSets(WithStage(ExamplePrev(id1, id2)), WithStage(ExampleCurr(id1, id2, id3)),
                   prevIds, currIds);
  }

  lemma NewIdsOfIdSets(prev: seq<Row>, curr: seq<Row>, prevIds: set<string>, currIds: set<string>)
    requires Distinct(EmailIds(prev)) == prevIds && Distinct(EmailIds(curr)) == currIds
    ensures Distinct(EmailIds(NewUsers(prev, curr))) == currIds - prevIds
  {
    NewUserIds(prev, curr);
  }

  /** id1 and id2 are the ids that reach the merge. */
  lemma ExampleRetained(id1: string, id2: string, id3: string)
    requires id1 != id2 && id1 != id3 && id2 != id3
    ensures JoinedIds(Merge(Project(WithStage(ExamplePrev(id1, id2))),
                            Project(WithStage(ExampleCurr(id1, id2, id3))))) == {id1, id2}
  {
    var prev := WithStage(ExamplePrev(id1, id2));
    var curr := WithStage(ExampleCurr(id1, id2, id3));
    ExampleIds(id1, id2, id3);
    WithStageClassifies(ExamplePrev(id1, id2));
    WithStageClassifies(ExampleCurr(id1, id2, id3));
    MergedIds(Project(prev), Project(curr));
    ProjectIds(prev);
    ProjectIds(curr);
    assert {id1, id2} * {id1, id2, id3} == {id1, id2};
  }

  lemma ExampleIds(id1: string, id2: string, id3: string)
    ensures Distinct(EmailIds(WithStage(ExamplePrev(id1, id2)))) == {id1, id2}
    ensures Distinct(EmailIds(WithStage(ExampleCurr(id1, id2, id3)))) == {id1, id2, id3}
  {
    WithStageKeepsIds(ExamplePrev(id1, id2));
    WithStageKeepsIds(ExampleCurr(id1, id2, id3));
    assert EmailIds(ExamplePrev(id1, id2)) == [id1, id2];
    assert EmailIds(ExampleCurr(id1, id2, id3)) == [id1, id2, id3];
    assert Distinct([id1, id2]) == {id1, id2};
    assert Distinct([id1, id2, id3]) == {id1, id2, id3};
  }

  /** The classified sheets projected on (Email_ID, Stage). */
  lemma ExampleProjections(id1: string, id2: string, id3: string)
    ensures Project(WithStage(ExamplePrev(id1, id2))) == [Keyed(id1, Payment), Keyed(id2, Academic)]
    ensures Project(WithStage(ExampleCurr(id1, id2, id3))) ==
      [Keyed(id1, Payment), Keyed(id2, Upload), Keyed(id3, Personal)]
  {
  }

  /** The merge pairs id1 with id1 and id2 with id2; id3 has no partner. */
  lemma ExampleMerge(id1: string, id2: string, id3: string)
    requires id1 != id2 && id1 != id3 && id2 != id3
    ensures Merge([Keyed(id1, Payment), Keyed(id2, Academic)],
                  [Keyed(id1, Payment), Keyed(id2, Upload), Keyed(id3, Personal)])
            == [Joined(id1, Payment, Payment), Joined(id2, Academic, Upload)]
  {
    var kp := [Keyed(id1, Payment), Keyed(id2, Academic)];
    var kc := [Keyed(id1, Payment), Keyed(id2, Upload), Keyed(id3, Personal)];
    assert kc[1..] == [Keyed(id2, Upload), Keyed(id3, Personal)];
    assert kc[2..] == [Keyed(id3, Personal)];
    assert kc[2..][1..] == [];
    assert Matches(kp[0], kc[2..]) == [];
    assert Matches(kp[0], kc[1..]) == [];
    assert Matches(kp[0], kc) == [Joined(id1, Payment, Payment)];
    assert Matches(kp[1], kc[2..]) == [];
    assert Matches(kp[1], kc[1..]) == [Joined(id2, Academic, Upload)];
    assert kp[1..] == [kp[1]];
    assert Merge(kp[1..], kc) == [Joined(id2, Academic, Upload)];
  }

  /** id1's unchanged Payment stage is filtered out, so the only transition
      left is id2's move from Academic to Upload. */
  lemma ExampleShiftCounts(id1: string, id2: string, id3: string)
    requires id1 != id2 && id1 != id3 && id2 != id3
    ensures ShiftCounts(Merge(Project(WithStage(ExamplePrev(id1, id2))),
                              Project(WithStage(ExampleCurr(id1, id2, id3)))))
            == [ShiftRow(Academic, Upload, 1)]
  {
    ExampleProjections(id1, id2, id3);
    ExampleMerge(id1, id2, id3);
    var merged := [Joined(id1, Payment, Payment), Joined(id2, Academic, Upload)];
    assert merged[1..] == [Joined(id2, Academic, Upload)];
    assert Shifted(merged) == [Joined(id2, Academic, Upload)];
  }

  /** A repeated id is not rejected: two previous rows for x against one
      current row give two merge rows, and the move is counted twice. */
  lemma ExampleRepeatedId(x: string)
    ensures Merge([Keyed(x, Personal), Keyed(x, Personal)], [Keyed(x, Upload)]) ==
      [Joined(x, Personal, Upload), Joined(x, Personal, Upload)]
    ensures ShiftCounts(Merge([Keyed(x, Personal), Keyed(x, Personal)], [Keyed(x, Upload)])) ==
      [ShiftRow(Personal, Upload, 2)]
  {
    var kp := [Keyed(x, Personal), Keyed(x, Personal)];
    var kc := [Keyed(x, Upload)];
    var j := Joined(x, Personal, Upload);
    assert kc[1..] == [];
    assert Matches(kp[0], kc) == [j];
    assert kp[1..] == [kp[1]] && kp[1..][1..] == [];
    assert Merge(kp[1..], kc) == [j];
    var merged := [j, j];
    assert merged[1..] == [j] && merged[1..][1..] == [];
    assert Shifted(merged) == merged;
  }
}
