/** Counting registrants by Email_ID and picking out the rows of users who
    are new in the current sheet, and the two-row registration summary. */
module UserDiff {
  import opened StageClassifier
  import opened StageColumn

  /** The Email_ID column of a sheet, in row order. */
  function EmailIds(rows: seq<Row>): (col: seq<string>)
    ensures |col| == |rows|
    ensures forall i :: 0 <= i < |rows| ==> col[i] == rows[i].rec.emailId
  {
    seq(|rows|, i requires 0 <= i < |rows| => rows[i].rec.emailId)
  }

  /** The distinct values of a column. */
  function Distinct(col: seq<string>): set<string>
  {
    set x | x in col
  }

  /** `Series.nunique()`: counts each value once, scanning the column and
      adding one for every value not seen earlier in it. */
  function NUnique(col: seq<string>): (n: nat)
    ensures n == |Distinct(col)|
    ensures n <= |col|
  {
    if col == [] then 0
    else
      var init := col[..|col| - 1];
      var last := col[|col| - 1];
      assert col == init + [last];
      assert Distinct(col) == Distinct(init) + {last};
      if last in init then
        assert last in Distinct(init);
        assert Distinct(col) == Distinct(init);
        NUnique(init)
      else
        assert last !in Distinct(init);
        NUnique(init) + 1
  }

  /** Rows whose Email_ID does not occur in ids, in their original order:
      `rows[~rows["Email_ID"].isin(ids)]`. */
  function RowsNotIn(rows: seq<Row>, ids: seq<string>): (r: seq<Row>)
    ensures forall x :: multiset(r)[x] == if x.rec.emailId in ids then 0 else multiset(rows)[x]
    ensures |r| <= |rows|
  {
    if rows == [] then []
    else
      assert rows == [rows[0]] + rows[1..];
      (if rows[0].rec.emailId in ids then [] else [rows[0]]) + RowsNotIn(rows[1..], ids)
  }

  /** new_users_df: the current rows whose Email_ID is absent from the
      previous sheet (website.py line 49). */
  function NewUsers(prev: seq<Row>, curr: seq<Row>): (r: seq<Row>)
    ensures forall x :: multiset(r)[x] ==
                        if x.rec.emailId in EmailIds(prev) then 0 else multiset(curr)[x]
  {
    RowsNotIn(curr, EmailIds(prev))
  }

  /** Every new-user row has an id the previous sheet lacks, and every
      current row with such an id is among them. */
  lemma {:induction false} NewUsersIsFilter(prev: seq<Row>, curr: seq<Row>, x: Row)
    ensures x in NewUsers(prev, curr) <==>
      x in curr && x.rec.emailId !in Distinct(EmailIds(prev))
  {
    var r := NewUsers(prev, curr);
    assert x in r <==> multiset(r)[x] > 0;
    assert x in curr <==> multiset(curr)[x] > 0;
  }

  /** The ids of the new users are the current ids minus the previous ids. */
  lemma {:induction false} NewUserIds(prev: seq<Row>, curr: seq<Row>)
    ensures Distinct(EmailIds(NewUsers(prev, curr))) ==
      Distinct(EmailIds(curr)) - Distinct(EmailIds(prev))
  {
    var r := NewUsers(prev, curr);
    var prevIds := Distinct(EmailIds(prev));
    forall x | x in Distinct(EmailIds(r))
      ensures x in Distinct(EmailIds(curr)) - prevIds
    {
      var i :| 0 <= i < |r| && EmailIds(r)[i] == x;
      NewUsersIsFilter(prev, curr, r[i]);
      var j :| 0 <= j < |curr| && curr[j] == r[i];
      assert EmailIds(curr)[j] == x;
    }
    forall x | x in Distinct(EmailIds(curr)) - prevIds
      ensures x in Distinct(EmailIds(r))
    {
      var j :| 0 <= j < |curr| && EmailIds(curr)[j] == x;
      NewUsersIsFilter(prev, curr, curr[j]);
      var i :| 0 <= i < |r| && r[i] == curr[j];
      assert EmailIds(r)[i] == x;
    }
  }

  /** total_new counts the ids of the current sheet that the previous sheet
      lacks, and so never exceeds the current sheet's distinct ids. */
  lemma TotalNewIsDifference(prev: seq<Row>, curr: seq<Row>)
    ensures NUnique(EmailIds(NewUsers(prev, curr))) ==
      |Distinct(EmailIds(curr)) - Distinct(EmailIds(prev))|
    ensures NUnique(EmailIds(NewUsers(prev, curr))) <= NUnique(EmailIds(curr))
  {
    NewUserIds(prev, curr);
    SubsetCard(Distinct(EmailIds(curr)) - Distinct(EmailIds(prev)), Distinct(EmailIds(curr)));
  }

  lemma SubsetCard(a: set<string>, b: set<string>)
    requires a <= b
    ensures |a| <= |b|
  {
    assert b == a + (b - a);
  }

  /** A row of the registration summary table. */
  datatype Metric = Metric(name: string, count: nat)

  /** summary_df (website.py lines 48-56): the distinct ids of the previous
      sheet, and the distinct ids of the current sheet's new users. */
  function Summary(prev: seq<Row>, curr: seq<Row>): (r: seq<Metric>)
    ensures |r| == 2
    ensures r[0].name == "Total in Previous Sheet"
    ensures r[0].count == |Distinct(EmailIds(prev))|
    ensures r[1].name == "New Users in Current Sheet"
    ensures r[1].count == |Distinct(EmailIds(curr)) - Distinct(EmailIds(prev))|
  {
    var totalPrev := NUnique(EmailIds(prev));
    var newUsersDf := NewUsers(prev, curr);
    var totalNew := NUnique(EmailIds(newUsersDf));
    TotalNewIsDifference(prev, curr);
    [Metric("Total in Previous Sheet", totalPrev), Metric("New Users in Current Sheet", totalNew)]
  }

  /** The summary table is determined by the two sheets' sets of ids alone. */
  lemma SummaryOfIdSets(prev: seq<Row>, curr: seq<Row>, prevIds: set<string>, currIds: set<string>)
    requires Distinct(EmailIds(prev)) == prevIds && Distinct(EmailIds(curr)) == currIds
    ensures Summary(prev, curr) ==
      [Metric("Total in Previous Sheet", |prevIds|), Metric("New Users in Current Sheet", |currIds - prevIds|)]
  {
    var r := Summary(prev, curr);
    assert r == [r[0], r[1]];
  }
}
