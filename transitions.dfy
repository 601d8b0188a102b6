/** Stage transitions between the two sheets: the inner merge on Email_ID
    of the (Email_ID, Stage) projections, the rows whose stage changed, and
    their group-by count per (Stage_prev, Stage_curr). */
module Transitions {
  import opened StageClassifier
  import opened StageColumn
  import opened UserDiff

  /** A row of `df[["Email_ID", "Stage"]]`. */
  datatype Keyed = Keyed(emailId: string, stage: Stage)

  /** The (Email_ID, Stage) projection of a classified sheet. */
  function Project(rows: seq<Row>): (r: seq<Keyed>)
    requires Classified(rows)
    ensures |r| == |rows|
    ensures forall i :: 0 <= i < |r| ==> r[i] == Keyed(rows[i].rec.emailId, rows[i].stage.value)
  {
    seq(|rows|, i requires 0 <= i < |rows| => Keyed(rows[i].rec.emailId, rows[i].stage.value))
  }

  /** The distinct Email_IDs of a projection. */
  function IdSet(ks: seq<Keyed>): set<string>
  {
    set i | 0 <= i < |ks| :: ks[i].emailId
  }

  /** Projecting keeps the Email_ID column, so the same distinct ids. */
  lemma ProjectIds(rows: seq<Row>)
    requires Classified(rows)
    ensures IdSet(Project(rows)) == Distinct(EmailIds(rows))
  {
    var ks := Project(rows);
    forall x | x in Distinct(EmailIds(rows))
      ensures x in IdSet(ks)
    {
      var i :| 0 <= i < |rows| && EmailIds(rows)[i] == x;
      assert ks[i].emailId == x;
    }
  }

  /** A row of `merged`: one previous row and one current row with equal ids. */
  datatype Joined = Joined(emailId: string, stagePrev: Stage, stageCurr: Stage)

  /** The pair formed by a previous row p and a current row c. */
  function Join(p: Keyed, c: Keyed): Joined
  {
    Joined(p.emailId, p.stage, c.stage)
  }

  /** The merge rows contributed by one previous row: one per current row
      with the same id, in current-sheet order. */
  function Matches(p: Keyed, curr: seq<Keyed>): (r: seq<Joined>)
    ensures |r| <= |curr|
    ensures forall j :: j in r ==> j.emailId == p.emailId && j.stagePrev == p.stage
  {
    if curr == [] then []
    else (if curr[0].emailId == p.emailId then [Join(p, curr[0])] else []) + Matches(p, curr[1..])
  }

  /** `pd.merge(prev, curr, on="Email_ID")` (inner join, website.py lines 62-64):
      every previous row paired with every current row of the same id. */
  function Merge(prev: seq<Keyed>, curr: seq<Keyed>): (r: seq<Joined>)
    ensures |r| <= |prev| * |curr|
  {
    if prev == [] then []
    else
      assert |prev| * |curr| == |curr| + (|prev| - 1) * |curr|;
      Matches(prev[0], curr) + Merge(prev[1..], curr)
  }

  lemma {:induction false} MatchesMember(p: Keyed, curr: seq<Keyed>, j: Joined)
    ensures j in Matches(p, curr) <==>
      exists k :: 0 <= k < |curr| && curr[k].emailId == p.emailId && j == Join(p, curr[k])
  {
    if curr != [] {
      MatchesMember(p, curr[1..], j);
      var head := if curr[0].emailId == p.emailId then [Join(p, curr[0])] else [];
      assert Matches(p, curr) == head + Matches(p, curr[1..]);
      if j in Matches(p, curr[1..]) {
        var k :| 0 <= k < |curr[1..]| && curr[1..][k].emailId == p.emailId && j == Join(p, curr[1..][k]);
        assert curr[k + 1] == curr[1..][k];
      }
      if exists k :: 0 <= k < |curr| && curr[k].emailId == p.emailId && j == Join(p, curr[k]) {
        var k :| 0 <= k < |curr| && curr[k].emailId == p.emailId && j == Join(p, curr[k]);
        if k > 0 {
          assert curr[1..][k - 1] == curr[k];
        }
      }
    }
  }

  /** The merged rows are exactly the pairs of one previous and one current
      row with equal Email_ID. */
  lemma {:induction false} MergeMember(prev: seq<Keyed>, curr: seq<Keyed>, j: Joined)
    ensures j in Merge(prev, curr) <==>
      exists i, k :: 0 <= i < |prev| && 0 <= k < |curr| &&
        prev[i].emailId == curr[k].emailId && j == Join(prev[i], curr[k])
  {
    if prev != [] {
      MergeMember(prev[1..], curr, j);
      MatchesMember(prev[0], curr, j);
      if j in Merge(prev[1..], curr) {
        var i, k :| 0 <= i < |prev[1..]| && 0 <= k < |curr| &&
          prev[1..][i].emailId == curr[k].emailId && j == Join(prev[1..][i], curr[k]);
        assert prev[i + 1] == prev[1..][i];
      }
      if exists i, k :: 0 <= i < |prev| && 0 <= k < |curr| &&
          prev[i].emailId == curr[k].emailId && j == Join(prev[i], curr[k]) {
        var i, k :| 0 <= i < |prev| && 0 <= k < |curr| &&
          prev[i].emailId == curr[k].emailId && j == Join(prev[i], curr[k]);
        if i > 0 {
          assert prev[1..][i - 1] == prev[i];
        }
      }
    }
  }

  /** A previous row p yields the merge row Joined(x, a, b) once for each
      current row Keyed(x, b), provided p is Keyed(x, a). */
  lemma {:induction false} MatchesMultiplicity(p: Keyed, curr: seq<Keyed>, x: string, a: Stage, b: Stage)
    ensures multiset(Matches(p, curr))[Joined(x, a, b)] ==
      if p == Keyed(x, a) then multiset(curr)[Keyed(x, b)] else 0
  {
    if curr != [] {
      MatchesMultiplicity(p, curr[1..], x, a, b);
      MultisetCons(curr);
      var head := if curr[0].emailId == p.emailId then [Join(p, curr[0])] else [];
      assert Matches(p, curr) == head + Matches(p, curr[1..]);
      assert multiset(Matches(p, curr))[Joined(x, a, b)] ==
        multiset(head)[Joined(x, a, b)] + multiset(Matches(p, curr[1..]))[Joined(x, a, b)];
    }
  }

  /** The many-to-many inner join: the merge holds Joined(x, a, b) as many
      times as there are previous rows Keyed(x, a) times current rows
      Keyed(x, b). */
  lemma {:induction false} MergeMultiplicity(prev: seq<Keyed>, curr: seq<Keyed>, x: string, a: Stage, b: Stage)
    ensures multiset(Merge(prev, curr))[Joined(x, a, b)] ==
      multiset(prev)[Keyed(x, a)] * multiset(curr)[Keyed(x, b)]
  {
    if prev != [] {
      var j, kp := Joined(x, a, b), Keyed(x, a);
      MergeMultiplicity(prev[1..], curr, x, a, b);
      MatchesMultiplicity(prev[0], curr, x, a, b);
      MergeConsCount(prev, curr, j);
      MultisetCons(prev);
      assert multiset(prev)[kp] == (if prev[0] == kp then 1 else 0) + multiset(prev[1..])[kp];
      CountStep(prev[0] == kp, multiset(curr)[Keyed(x, b)],
                multiset(Matches(prev[0], curr))[j], multiset(Merge(prev[1..], curr))[j],
                multiset(prev[1..])[kp], multiset(prev)[kp]);
    }
  }

  lemma MergeConsCount(prev: seq<Keyed>, curr: seq<Keyed>, j: Joined)
    requires prev != []
    ensures multiset(Merge(prev, curr))[j] ==
      multiset(Matches(prev[0], curr))[j] + multiset(Merge(prev[1..], curr))[j]
  {
    assert Merge(prev, curr) == Matches(prev[0], curr) + Merge(prev[1..], curr);
  }

  lemma MultisetCons<T>(s: seq<T>)
    requires s != []
    ensures multiset(s) == multiset{s[0]} + multiset(s[1..])
  {
    assert s == [s[0]] + s[1..];
  }

  /** The arithmetic step of MergeMultiplicity: one more previous row of
      the same key adds one more copy of every matching current row. */
  lemma CountStep(same: bool, n: nat, here: nat, rest: nat, t: nat, total: nat)
    requires here == if same then n else 0
    requires rest == t * n
    requires total == (if same then 1 else 0) + t
    ensures here + rest == total * n
  {
    if same {
      assert (1 + t) * n == n + t * n;
    }
  }

  /** The distinct ids of the merged rows. */
  function JoinedIds(m: seq<Joined>): set<string>
  {
    set i | 0 <= i < |m| :: m[i].emailId
  }

  /** Only ids present in both sheets show up in the merge, and all of them do. */
  lemma MergedIds(prev: seq<Keyed>, curr: seq<Keyed>)
    ensures JoinedIds(Merge(prev, curr)) == IdSet(prev) * IdSet(curr)
  {
    var m := Merge(prev, curr);
    forall x | x in JoinedIds(m)
      ensures x in IdSet(prev) * IdSet(curr)
    {
      var n :| 0 <= n < |m| && m[n].emailId == x;
      MergeMember(prev, curr, m[n]);
      var i, k :| 0 <= i < |prev| && 0 <= k < |curr| &&
        prev[i].emailId == curr[k].emailId && m[n] == Join(prev[i], curr[k]);
      assert prev[i].emailId == x && curr[k].emailId == x;
    }
    forall x | x in IdSet(prev) * IdSet(curr)
      ensures x in JoinedIds(m)
    {
      var i :| 0 <= i < |prev| && prev[i].emailId == x;
      var k :| 0 <= k < |curr| && curr[k].emailId == x;
      MergeMember(prev, curr, Join(prev[i], curr[k]));
      var n :| 0 <= n < |m| && m[n] == Join(prev[i], curr[k]);
      assert m[n].emailId == x;
    }
  }

  /** No two rows of a projection share an Email_ID. */
  predicate UniqueIds(ks: seq<Keyed>)
  {
    forall i, j :: 0 <= i < j < |ks| ==> ks[i].emailId != ks[j].emailId
  }

  lemma IdSetCons(ks: seq<Keyed>)
    requires ks != []
    ensures IdSet(ks) == {ks[0].emailId} + IdSet(ks[1..])
  {
    forall x | x in IdSet(ks)
      ensures x in {ks[0].emailId} + IdSet(ks[1..])
    {
      var i :| 0 <= i < |ks| && ks[i].emailId == x;
      if i > 0 {
        assert ks[1..][i - 1].emailId == x;
      }
    }
    forall x | x in IdSet(ks[1..])
      ensures x in IdSet(ks)
    {
      var i :| 0 <= i < |ks[1..]| && ks[1..][i].emailId == x;
      assert ks[i + 1].emailId == x;
    }
  }

  /** Dropping the first row of a projection without repeated ids leaves
      one without repeated ids that lacks the first id. */
  lemma UniqueTail(ks: seq<Keyed>)
    requires UniqueIds(ks) && ks != []
    ensures UniqueIds(ks[1..])
    ensures ks[0].emailId !in IdSet(ks[1..])
  {
    forall i, j | 0 <= i < j < |ks[1..]|
      ensures ks[1..][i].emailId != ks[1..][j].emailId
    {
      assert ks[1..][i] == ks[i + 1] && ks[1..][j] == ks[j + 1];
    }
    forall i | 0 <= i < |ks[1..]|
      ensures ks[1..][i].emailId != ks[0].emailId
    {
      assert ks[1..][i] == ks[i + 1];
    }
  }

  lemma {:induction false} MatchesUnique(p: Keyed, curr: seq<Keyed>)
    requires UniqueIds(curr)
    ensures |Matches(p, curr)| == if p.emailId in IdSet(curr) then 1 else 0
  {
    if curr != [] {
      IdSetCons(curr);
      UniqueTail(curr);
      MatchesUnique(p, curr[1..]);
    }
  }

  /** With unique ids in both sheets the merge holds one row per shared id. */
  lemma {:induction false} MergeUnique(prev: seq<Keyed>, curr: seq<Keyed>)
    requires UniqueIds(prev) && UniqueIds(curr)
    ensures |Merge(prev, curr)| == |IdSet(prev) * IdSet(curr)|
  {
    if prev == [] {
      assert IdSet(prev) == {};
    } else {
      IdSetCons(prev);
      UniqueTail(prev);
      MergeUnique(prev[1..], curr);
      MatchesUnique(prev[0], curr);
      SharedCons(prev[0].emailId, IdSet(prev[1..]), IdSet(curr));
    }
  }

  lemma SharedCons(x: string, rest: set<string>, other: set<string>)
    requires x !in rest
    ensures |({x} + rest) * other| == |rest * other| + if x in other then 1 else 0
  {
    if x in other {
      assert ({x} + rest) * other == {x} + rest * other;
    } else {
      assert ({x} + rest) * other == rest * other;
    }
  }

  /** The (Stage_prev, Stage_curr) pair of a merged row. */
  function Transition(j: Joined): (Stage, Stage)
  {
    (j.stagePrev, j.stageCurr)
  }

  /** The row's stage differs between the two sheets. */
  predicate Changed(j: Joined)
  {
    j.stagePrev != j.stageCurr
  }

  /** Number of merged rows with the given (Stage_prev, Stage_curr) pair. */
  function PairCount(m: seq<Joined>, key: (Stage, Stage)): nat
  {
    if m == [] then 0
    else (if Transition(m[0]) == key then 1 else 0) + PairCount(m[1..], key)
  }

  /** Appending rows adds their pair counts. */
  lemma {:induction false} PairCountAppend(a: seq<Joined>, b: seq<Joined>, key: (Stage, Stage))
    ensures PairCount(a + b, key) == PairCount(a, key) + PairCount(b, key)
  {
    if a == [] {
      assert a + b == b;
    } else {
      assert (a + b)[0] == a[0];
      assert (a + b)[1..] == a[1..] + b;
      PairCountAppend(a[1..], b, key);
    }
  }

  /** Matches against a current sheet grown by one row at the end. */
  lemma {:induction false} MatchesSnoc(p: Keyed, init: seq<Keyed>, c: Keyed)
    ensures Matches(p, init + [c]) ==
      Matches(p, init) + (if c.emailId == p.emailId then [Join(p, c)] else [])
  {
    if init == [] {
      assert [c][1..] == [];
    } else {
      assert (init + [c])[0] == init[0];
      assert (init + [c])[1..] == init[1..] + [c];
      MatchesSnoc(p, init[1..], c);
    }
  }

  /** Merge of a previous sheet grown by one row at the end. */
  lemma {:induction false} MergeSnoc(init: seq<Keyed>, last: Keyed, curr: seq<Keyed>)
    ensures Merge(init + [last], curr) == Merge(init, curr) + Matches(last, curr)
  {
    if init == [] {
      assert [last][1..] == [];
    } else {
      assert (init + [last])[0] == init[0];
      assert (init + [last])[1..] == init[1..] + [last];
      MergeSnoc(init[1..], last, curr);
    }
  }

  /** The positions of the current rows that share p's Email_ID. */
  function SameIdRows(p: Keyed, curr: seq<Keyed>): set<int>
  {
    set k | 0 <= k < |curr| && curr[k].emailId == p.emailId
  }

  /** The positions of the current rows that share p's Email_ID and whose
      pairing with p makes the move key. */
  function MovingRows(p: Keyed, curr: seq<Keyed>, key: (Stage, Stage)): set<int>
  {
    set k | 0 <= k < |curr| && curr[k].emailId == p.emailId && (p.stage, curr[k].stage) == key
  }

  /** Index pairs (i, k) of a previous row and a current row with the same
      Email_ID: the row pairs an inner join on Email_ID produces. */
  function SameIdPairs(prev: seq<Keyed>, curr: seq<Keyed>): set<(int, int)>
  {
    set i, k | 0 <= i < |prev| && 0 <= k < |curr| && prev[i].emailId == curr[k].emailId :: (i, k)
  }

  /** The index pairs of SameIdPairs whose stages make the move key. */
  function MovingPairs(prev: seq<Keyed>, curr: seq<Keyed>, key: (Stage, Stage)): set<(int, int)>
  {
    set i, k | 0 <= i < |prev| && 0 <= k < |curr| && prev[i].emailId == curr[k].emailId &&
                (prev[i].stage, curr[k].stage) == key :: (i, k)
  }

  lemma SameIdRowsSplit(p: Keyed, init: seq<Keyed>, c: Keyed)
    ensures SameIdRows(p, init + [c]) ==
      SameIdRows(p, init) + (if c.emailId == p.emailId then {|init|} else {})
  {
    var curr := init + [c];
    forall k | k in SameIdRows(p, curr)
      ensures k in SameIdRows(p, init) + (if c.emailId == p.emailId then {|init|} else {})
    {
      if k < |init| {
        assert curr[k] == init[k];
      }
    }
    forall k | k in SameIdRows(p, init)
      ensures k in SameIdRows(p, curr)
    {
      assert curr[k] == init[k];
    }
    assert curr[|init|] == c;
  }

  lemma SameIdRowsSnoc(p: Keyed, init: seq<Keyed>, c: Keyed)
    ensures |SameIdRows(p, init + [c])| ==
      |SameIdRows(p, init)| + if c.emailId == p.emailId then 1 else 0
  {
    SameIdRowsSplit(p, init, c);
    assert |init| !in SameIdRows(p, init);
  }

  lemma MovingRowsSplit(p: Keyed, init: seq<Keyed>, c: Keyed, key: (Stage, Stage))
    ensures MovingRows(p, init + [c], key) == MovingRows(p, init, key) +
      (if c.emailId == p.emailId && (p.stage, c.stage) == key then {|init|} else {})
  {
    var curr := init + [c];
    var extra: set<int> :=
      if c.emailId == p.emailId && (p.stage, c.stage) == key then {|init|} else {};
    forall k | k in MovingRows(p, curr, key)
      ensures k in MovingRows(p, init, key) + extra
    {
      if k < |init| {
        assert curr[k] == init[k];
      }
    }
    forall k | k in MovingRows(p, init, key)
      ensures k in MovingRows(p, curr, key)
    {
      assert curr[k] == init[k];
    }
    assert curr[|init|] == c;
  }

  lemma MovingRowsSnoc(p: Keyed, init: seq<Keyed>, c: Keyed, key: (Stage, Stage))
    ensures |MovingRows(p, init + [c], key)| ==
      |MovingRows(p, init, key)| + if c.emailId == p.emailId && (p.stage, c.stage) == key then 1 else 0
  {
    MovingRowsSplit(p, init, c, key);
    assert |init| !in MovingRows(p, init, key);
  }

  /** The index pairs (n, k) for the indexes k of ks. */
  function Paired<T>(n: int, ks: set<T>): set<(int, T)>
  {
    set k | k in ks :: (n, k)
  }

  /** Pairing one row index with a set of indexes keeps the set's size. */
  lemma {:induction false} RowCard<T>(n: int, ks: set<T>)
    ensures |Paired(n, ks)| == |ks|
    decreases |ks|
  {
    if ks != {} {
      var x :| x in ks;
      var rest := ks - {x};
      RowCard(n, rest);
      assert Paired(n, ks) == Paired(n, rest) + {(n, x)};
      assert (n, x) !in Paired(n, rest);
    }
  }

  lemma SameIdPairsSplit(init: seq<Keyed>, last: Keyed, curr: seq<Keyed>)
    ensures SameIdPairs(init + [last], curr) ==
      SameIdPairs(init, curr) + Paired(|init|, SameIdRows(last, curr))
  {
    var prev := init + [last];
    forall q | q in SameIdPairs(prev, curr)
      ensures q in SameIdPairs(init, curr) + Paired(|init|, SameIdRows(last, curr))
    {
      var i, k :| 0 <= i < |prev| && 0 <= k < |curr| && prev[i].emailId == curr[k].emailId && q == (i, k);
      if i < |init| {
        assert prev[i] == init[i];
      } else {
        assert prev[i] == last && k in SameIdRows(last, curr);
      }
    }
    forall q | q in SameIdPairs(init, curr)
      ensures q in SameIdPairs(prev, curr)
    {
      var i, k :| 0 <= i < |init| && 0 <= k < |curr| && init[i].emailId == curr[k].emailId && q == (i, k);
      assert prev[i] == init[i];
    }
    forall q | q in Paired(|init|, SameIdRows(last, curr))
      ensures q in SameIdPairs(prev, curr)
    {
      var k :| k in SameIdRows(last, curr) && q == (|init|, k);
      assert prev[|init|] == last;
    }
  }

  lemma SameIdPairsSnoc(init: seq<Keyed>, last: Keyed, curr: seq<Keyed>)
    ensures |SameIdPairs(init + [last], curr)| == |SameIdPairs(init, curr)| + |SameIdRows(last, curr)|
  {
    var lastRow := Paired(|init|, SameIdRows(last, curr));
    RowCard(|init|, SameIdRows(last, curr));
    SameIdPairsSplit(init, last, curr);
    assert SameIdPairs(init, curr) * lastRow == {};
  }

  lemma MovingPairsSplit(init: seq<Keyed>, last: Keyed, curr: seq<Keyed>, key: (Stage, Stage))
    ensures MovingPairs(init + [last], curr, key) ==
      MovingPairs(init, curr, key) + Paired(|init|, MovingRows(last, curr, key))
  {
    var prev := init + [last];
    forall q | q in MovingPairs(prev, curr, key)
      ensures q in MovingPairs(init, curr, key) + Paired(|init|, MovingRows(last, curr, key))
    {
      var i, k :| 0 <= i < |prev| && 0 <= k < |curr| && prev[i].emailId == curr[k].emailId &&
                  (prev[i].stage, curr[k].stage) == key && q == (i, k);
      if i < |init| {
        assert prev[i] == init[i];
      } else {
        assert prev[i] == last && k in MovingRows(last, curr, key);
      }
    }
    forall q | q in MovingPairs(init, curr, key)
      ensures q in MovingPairs(prev, curr, key)
    {
      var i, k :| 0 <= i < |init| && 0 <= k < |curr| && init[i].emailId == curr[k].emailId &&
                  (init[i].stage, curr[k].stage) == key && q == (i, k);
      assert prev[i] == init[i];
    }
    forall q | q in Paired(|init|, MovingRows(last, curr, key))
      ensures q in MovingPairs(prev, curr, key)
    {
      var k :| k in MovingRows(last, curr, key) && q == (|init|, k);
      assert prev[|init|] == last;
    }
  }

  lemma MovingPairsSnoc(init: seq<Keyed>, last: Keyed, curr: seq<Keyed>, key: (Stage, Stage))
    ensures |MovingPairs(init + [last], curr, key)| ==
      |MovingPairs(init, curr, key)| + |MovingRows(last, curr, key)|
  {
    var lastRow := Paired(|init|, MovingRows(last, curr, key));
    RowCard(|init|, MovingRows(last, curr, key));
    MovingPairsSplit(init, last, curr, key);
    assert MovingPairs(init, curr, key) * lastRow == {};
  }

  /** One previous row yields one merge row per current row with its id. */
  lemma {:induction false} MatchesSize(p: Keyed, curr: seq<Keyed>)
    ensures |Matches(p, curr)| == |SameIdRows(p, curr)|
    decreases |curr|
  {
    if curr != [] {
      var init, c := curr[..|curr| - 1], curr[|curr| - 1];
      assert curr == init + [c];
      MatchesSnoc(p, init, c);
      MatchesSize(p, init);
      SameIdRowsSnoc(p, init, c);
    }
  }

  /** Per move, one previous row yields one merge row per current row with
      its id and the matching stage. */
  lemma {:induction false} MatchesPairCount(p: Keyed, curr: seq<Keyed>, key: (Stage, Stage))
    ensures PairCount(Matches(p, curr), key) == |MovingRows(p, curr, key)|
    decreases |curr|
  {
    if curr != [] {
      var init, c := curr[..|curr| - 1], curr[|curr| - 1];
      assert curr == init + [c];
      MatchesSnoc(p, init, c);
      MatchesPairCount(p, init, key);
      var tail := if c.emailId == p.emailId then [Join(p, c)] else [];
      PairCountAppend(Matches(p, init), tail, key);
      MovingRowsSnoc(p, init, c, key);
    }
  }

  /** The merge has one row for every pair of a previous row and a current
      row with equal Email_ID, repeated ids included (many-to-many). */
  lemma {:induction false} MergeSize(prev: seq<Keyed>, curr: seq<Keyed>)
    ensures |Merge(prev, curr)| == |SameIdPairs(prev, curr)|
    decreases |prev|
  {
    if prev == [] {
      assert SameIdPairs(prev, curr) == {};
    } else {
      var init, last := prev[..|prev| - 1], prev[|prev| - 1];
      assert prev == init + [last];
      MergeSnoc(init, last, curr);
      MergeSize(init, curr);
      MatchesSize(last, curr);
      SameIdPairsSnoc(init, last, curr);
    }
  }

  /** Per move, the merge has one row for every pair of a previous row and a
      current row with equal Email_ID whose stages make that move. */
  lemma {:induction false} MergePairCount(prev: seq<Keyed>, curr: seq<Keyed>, key: (Stage, Stage))
    ensures PairCount(Merge(prev, curr), key) == |MovingPairs(prev, curr, key)|
    decreases |prev|
  {
    if prev == [] {
      assert MovingPairs(prev, curr, key) == {};
    } else {
      var init, last := prev[..|prev| - 1], prev[|prev| - 1];
      assert prev == init + [last];
      MergeSnoc(init, last, curr);
      PairCountAppend(Merge(init, curr), Matches(last, curr), key);
      MergePairCount(init, curr, key);
      MatchesPairCount(last, curr, key);
      MovingPairsSnoc(init, last, curr, key);
    }
  }

  /** stage_shift_df (website.py line 66): the merged rows whose two stages
      differ, in merge order. */
  function Shifted(m: seq<Joined>): (r: seq<Joined>)
    ensures |r| <= |m|
  {
    if m == [] then [] else (if Changed(m[0]) then [m[0]] else []) + Shifted(m[1..])
  }

  /** The filter keeps every changed row as often as it occurs in the merge
      and drops every unchanged one. */
  lemma {:induction false} ShiftedIsFilter(m: seq<Joined>)
    ensures forall x :: multiset(Shifted(m))[x] == if Changed(x) then multiset(m)[x] else 0
  {
    if m != [] {
      ShiftedIsFilter(m[1..]);
      assert m == [m[0]] + m[1..];
      var head := if Changed(m[0]) then [m[0]] else [];
      assert Shifted(m) == head + Shifted(m[1..]);
      assert multiset(Shifted(m)) == multiset(head) + multiset(Shifted(m[1..]));
      assert multiset(m) == multiset{m[0]} + multiset(m[1..]);
    }
  }

  /** Per stage pair: an off-diagonal pair keeps its count, a diagonal pair
      (no change) is gone. */
  lemma {:induction false} ShiftedPairCount(m: seq<Joined>, key: (Stage, Stage))
    ensures PairCount(Shifted(m), key) == if key.0 != key.1 then PairCount(m, key) else 0
  {
    if m != [] {
      ShiftedPairCount(m[1..], key);
      var head := if Changed(m[0]) then [m[0]] else [];
      if Changed(m[0]) {
        assert Shifted(m)[0] == m[0] && Shifted(m)[1..] == Shifted(m[1..]);
      } else {
        assert Shifted(m) == Shifted(m[1..]);
      }
    }
  }

  /** A row of shift_counts: a stage pair and the size of its group. */
  datatype ShiftRow = ShiftRow(stagePrev: Stage, stageCurr: Stage, count: nat)

  function RowKey(s: ShiftRow): (Stage, Stage)
  {
    (s.stagePrev, s.stageCurr)
  }

  /** The stage pairs present in a count table. */
  function KeySet(rows: seq<ShiftRow>): set<(Stage, Stage)>
  {
    if rows == [] then {} else {RowKey(rows[0])} + KeySet(rows[1..])
  }

  /** Each stage pair occupies at most one row. */
  predicate DistinctKeys(rows: seq<ShiftRow>)
  {
    rows == [] || (RowKey(rows[0]) !in KeySet(rows[1..]) && DistinctKeys(rows[1..]))
  }

  /** The count of a stage pair in a table (0 when the pair has no row). */
  function Lookup(rows: seq<ShiftRow>, key: (Stage, Stage)): nat
  {
    if rows == [] then 0
    else if RowKey(rows[0]) == key then rows[0].count
    else Lookup(rows[1..], key)
  }

  /** The sum of the Count column. */
  function TotalCount(rows: seq<ShiftRow>): nat
  {
    if rows == [] then 0 else rows[0].count + TotalCount(rows[1..])
  }

  /** All counts are at least one. */
  predicate Positive(rows: seq<ShiftRow>)
  {
    forall i :: 0 <= i < |rows| ==> rows[i].count >= 1
  }

  /** One more observation of a stage pair: its row's count goes up by one,
      or a row with count 1 is added when the pair has none yet. */
  function Bump(rows: seq<ShiftRow>, key: (Stage, Stage)): (r: seq<ShiftRow>)
    ensures KeySet(r) == KeySet(rows) + {key}
    ensures DistinctKeys(rows) ==> DistinctKeys(r)
    ensures Positive(rows) ==> Positive(r)
    ensures forall k :: Lookup(r, k) == Lookup(rows, k) + (if k == key then 1 else 0)
    ensures TotalCount(r) == TotalCount(rows) + 1
  {
    if rows == [] then [ShiftRow(key.0, key.1, 1)]
    else if RowKey(rows[0]) == key then [rows[0].(count := rows[0].count + 1)] + rows[1..]
    else [rows[0]] + Bump(rows[1..], key)
  }

  /** `groupby(["Stage_prev", "Stage_curr"]).size()`: one row per stage pair
      occurring in m, holding the number of rows of m with that pair. */
  function GroupSize(m: seq<Joined>): (r: seq<ShiftRow>)
    ensures DistinctKeys(r)
    ensures Positive(r)
    ensures KeySet(r) == set j | j in m :: Transition(j)
    ensures forall key :: Lookup(r, key) == PairCount(m, key)
    ensures TotalCount(r) == |m|
  {
    if m == [] then []
    else
      assert m == [m[0]] + m[1..];
      assert (set j | j in m :: Transition(j)) ==
        {Transition(m[0])} + set j | j in m[1..] :: Transition(j);
      Bump(GroupSize(m[1..]), Transition(m[0]))
  }

  lemma {:induction false} KeyInKeySet(rows: seq<ShiftRow>, i: int)
    requires 0 <= i < |rows|
    ensures RowKey(rows[i]) in KeySet(rows)
  {
    if i > 0 {
      KeyInKeySet(rows[1..], i - 1);
    }
  }

  /** In a table without repeated pairs, a row's count is what Lookup finds. */
  lemma {:induction false} LookupAt(rows: seq<ShiftRow>, i: int)
    requires DistinctKeys(rows) && 0 <= i < |rows|
    ensures Lookup(rows, RowKey(rows[i])) == rows[i].count
  {
    if i > 0 {
      KeyInKeySet(rows[1..], i - 1);
      LookupAt(rows[1..], i - 1);
    }
  }

  /** DistinctKeys means pairwise different stage pairs. */
  lemma {:induction false} DistinctKeysPairwise(rows: seq<ShiftRow>, i: int, j: int)
    requires DistinctKeys(rows) && 0 <= i < j < |rows|
    ensures RowKey(rows[i]) != RowKey(rows[j])
  {
    if i == 0 {
      KeyInKeySet(rows[1..], j - 1);
    } else {
      DistinctKeysPairwise(rows[1..], i - 1, j - 1);
    }
  }

  lemma LookupAll(rows: seq<ShiftRow>)
    requires DistinctKeys(rows)
    ensures forall i :: 0 <= i < |rows| ==> Lookup(rows, RowKey(rows[i])) == rows[i].count
  {
    forall i | 0 <= i < |rows|
      ensures Lookup(rows, RowKey(rows[i])) == rows[i].count
    {
      LookupAt(rows, i);
    }
  }

  lemma KeysAll(rows: seq<ShiftRow>)
    ensures forall i :: 0 <= i < |rows| ==> RowKey(rows[i]) in KeySet(rows)
  {
    forall i | 0 <= i < |rows|
      ensures RowKey(rows[i]) in KeySet(rows)
    {
      KeyInKeySet(rows, i);
    }
  }

  /** shift_counts (website.py lines 66-67): the group sizes of the
      merged rows whose stage changed. */
  function ShiftCounts(m: seq<Joined>): (r: seq<ShiftRow>)
    ensures DistinctKeys(r)
    ensures TotalCount(r) == |Shifted(m)|
  {
    GroupSize(Shifted(m))
  }

  /** No row of shift_counts is a no-change pair, and each pair has one row. */
  lemma ShiftCountsRows(m: seq<Joined>)
    ensures forall i :: 0 <= i < |ShiftCounts(m)| ==>
      ShiftCounts(m)[i].stagePrev != ShiftCounts(m)[i].stageCurr
    ensures forall i, j :: 0 <= i < j < |ShiftCounts(m)| ==>
      RowKey(ShiftCounts(m)[i]) != RowKey(ShiftCounts(m)[j])
    ensures KeySet(ShiftCounts(m)) == set j | j in m && Changed(j) :: Transition(j)
  {
    var r := ShiftCounts(m);
    var shifted := Shifted(m);
    KeysAll(r);
    forall i, j | 0 <= i < j < |r|
      ensures RowKey(r[i]) != RowKey(r[j])
    {
      DistinctKeysPairwise(r, i, j);
    }
    ShiftedIsFilter(m);
    forall j | j in m
      ensures j in shifted <==> Changed(j)
    {
      assert j in shifted <==> multiset(shifted)[j] > 0;
      assert multiset(m)[j] > 0;
    }
    forall j | j in shifted
      ensures j in m && Changed(j)
    {
      assert multiset(shifted)[j] > 0;
    }
  }

  /** Each count is the number of merged rows making that move, and is at
      least one. */
  lemma ShiftCountsCounts(m: seq<Joined>)
    ensures forall i :: 0 <= i < |ShiftCounts(m)| ==>
      1 <= ShiftCounts(m)[i].count == PairCount(m, RowKey(ShiftCounts(m)[i]))
  {
    var r := ShiftCounts(m);
    LookupAll(r);
    ShiftCountsRows(m);
    forall i | 0 <= i < |r|
      ensures r[i].count == PairCount(m, RowKey(r[i]))
    {
      ShiftedPairCount(m, RowKey(r[i]));
    }
  }

  /** Each count of shift_counts, in terms of the two projected sheets: the
      number of pairs of a previous row and a current row with equal
      Email_ID whose stages make that move. */
  lemma ShiftCountsOfSheets(prev: seq<Keyed>, curr: seq<Keyed>)
    ensures forall i :: 0 <= i < |ShiftCounts(Merge(prev, curr))| ==>
      ShiftCounts(Merge(prev, curr))[i].count ==
        |MovingPairs(prev, curr, RowKey(ShiftCounts(Merge(prev, curr))[i]))|
  {
    var r := ShiftCounts(Merge(prev, curr));
    ShiftCountsCounts(Merge(prev, curr));
    forall i | 0 <= i < |r|
      ensures r[i].count == |MovingPairs(prev, curr, RowKey(r[i]))|
    {
      MergePairCount(prev, curr, RowKey(r[i]));
    }
  }

  /** The counts add up to the number of merged rows whose stage changed. */
  lemma ShiftCountsTotal(m: seq<Joined>)
    ensures TotalCount(ShiftCounts(m)) == |Shifted(m)|
    ensures TotalCount(ShiftCounts(m)) == |m| <==> forall i :: 0 <= i < |m| ==> Changed(m[i])
  {
    ShiftedKeepsAll(m);
  }

  /** The filter drops nothing exactly when every merged row changed stage. */
  lemma {:induction false} ShiftedKeepsAll(m: seq<Joined>)
    ensures |Shifted(m)| == |m| <==> forall i :: 0 <= i < |m| ==> Changed(m[i])
  {
    if m != [] {
      ShiftedKeepsAll(m[1..]);
      if forall i :: 0 <= i < |m[1..]| ==> Changed(m[1..][i]) {
        if Changed(m[0]) {
          forall i | 0 <= i < |m|
            ensures Changed(m[i])
          {
            if i > 0 {
              assert m[i] == m[1..][i - 1];
            }
          }
        }
      } else {
        var i :| 0 <= i < |m[1..]| && !Changed(m[1..][i]);
        assert !Changed(m[i + 1]);
      }
    }
  }

  /** With unique ids the counts add up to at most the number of shared ids. */
  lemma ShiftTotalBound(prev: seq<Keyed>, curr: seq<Keyed>)
    requires UniqueIds(prev) && UniqueIds(curr)
    ensures TotalCount(ShiftCounts(Merge(prev, curr))) <= |IdSet(prev) * IdSet(curr)|
  {
    MergeUnique(prev, curr);
  }
}
