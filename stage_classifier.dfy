/** The stage classifier of the Stage Shift dashboard: a registrant's row
    carries four status cells, and the row is put into the most advanced
    of five progression stages whose cell reads exactly "Completed". */
module StageClassifier {

  datatype Option<+T> = None | Some(value: T)

  /** The five stages, declared in progression order. */
  datatype Stage = Registered | Personal | Academic | Upload | Payment

  /** Position of a stage in the progression Registered < ... < Payment. */
  function Rank(s: Stage): (n: nat)
    ensures n < 5
  {
    match s
    case Registered => 0
    case Personal => 1
    case Academic => 2
    case Upload => 3
    case Payment => 4
  }

  /** The text the dashboard shows (and compares) for a stage. */
  function Label(s: Stage): string
  {
    match s
    case Registered => "Registered"
    case Personal => "Personal"
    case Academic => "Academic"
    case Upload => "Upload"
    case Payment => "Payment"
  }

  /** One spreadsheet row as the classifier sees it: the Email_ID cell and
      the four status cells. A status cell is None when the column is
      absent or the cell is empty; any other cell content is its text. */
  datatype Record = Record(
    emailId: string,
    personalStatus: Option<string>,
    academicStatus: Option<string>,
    uploadStatus: Option<string>,
    paymentStatus: Option<string>)

  /** Only the exact text "Completed" counts as done. */
  predicate IsCompleted(cell: Option<string>)
  {
    cell == Some("Completed")
  }

  /** The record has reached stage s: Registered is reached by every row,
      every other stage by its own status cell reading "Completed". */
  predicate Reached(rec: Record, s: Stage)
  {
    match s
    case Registered => true
    case Personal => IsCompleted(rec.personalStatus)
    case Academic => IsCompleted(rec.academicStatus)
    case Upload => IsCompleted(rec.uploadStatus)
    case Payment => IsCompleted(rec.paymentStatus)
  }

  /** determine_stage: the first-match chain Payment, Upload, Academic,
      Personal, else Registered. The result is the most advanced stage
      the record has reached. */
  function DetermineStage(rec: Record): (r: Stage)
    ensures Reached(rec, r)
    ensures forall s :: Reached(rec, s) ==> Rank(s) <= Rank(r)
  {
    if IsCompleted(rec.paymentStatus) then Payment
    else if IsCompleted(rec.uploadStatus) then Upload
    else if IsCompleted(rec.academicStatus) then Academic
    else if IsCompleted(rec.personalStatus) then Personal
    else Registered
  }

  /** The two clauses of DetermineStage's contract single out one stage:
      any stage that is reached and dominates every reached stage is the
      classifier's answer. */
  lemma {:induction false} MostAdvancedIsUnique(rec: Record, s: Stage)
    requires Reached(rec, s)
    requires forall t :: Reached(rec, t) ==> Rank(t) <= Rank(s)
    ensures DetermineStage(rec) == s
  {
    var r := DetermineStage(rec);
    assert Rank(r) <= Rank(s);
    assert Rank(s) <= Rank(r);
    RankInjective(r, s);
  }

  lemma RankInjective(s: Stage, t: Stage)
    ensures Rank(s) == Rank(t) <==> s == t
  {
  }

  /** Each stage, taken case by case, as an if-and-only-if over the four
      cells: a cell counts only when every more advanced cell does not. */
  lemma StageCases(rec: Record)
    ensures DetermineStage(rec) == Payment <==> IsCompleted(rec.paymentStatus)
    ensures DetermineStage(rec) == Upload <==>
      !IsCompleted(rec.paymentStatus) && IsCompleted(rec.uploadStatus)
    ensures DetermineStage(rec) == Academic <==>
      !IsCompleted(rec.paymentStatus) && !IsCompleted(rec.uploadStatus) &&
      IsCompleted(rec.academicStatus)
    ensures DetermineStage(rec) == Personal <==>
      !IsCompleted(rec.paymentStatus) && !IsCompleted(rec.uploadStatus) &&
      !IsCompleted(rec.academicStatus) && IsCompleted(rec.personalStatus)
    ensures DetermineStage(rec) == Registered <==>
      !IsCompleted(rec.paymentStatus) && !IsCompleted(rec.uploadStatus) &&
      !IsCompleted(rec.academicStatus) && !IsCompleted(rec.personalStatus)
  {
  }

  /** Payment wins whatever the other three cells hold. */
  lemma PaymentHasPriority(rec: Record)
    requires rec.paymentStatus == Some("Completed")
    ensures DetermineStage(rec) == Payment
  {
  }

  /** A row with no cell reading exactly "Completed" (missing cells, other
      texts such as "completed" or "Pending") stays Registered. */
  lemma NothingCompletedIsRegistered(rec: Record)
    requires forall s :: s != Registered ==> !Reached(rec, s)
    ensures DetermineStage(rec) == Registered
  {
    assert !Reached(rec, Payment) && !Reached(rec, Upload);
    assert !Reached(rec, Academic) && !Reached(rec, Personal);
  }

  /** The classifier looks only at the four status cells: two rows that agree
      on them get the same stage, whatever their ids. */
  lemma OnlyStatusCellsMatter(a: Record, b: Record)
    requires a.personalStatus == b.personalStatus && a.academicStatus == b.academicStatus
    requires a.uploadStatus == b.uploadStatus && a.paymentStatus == b.paymentStatus
    ensures DetermineStage(a) == DetermineStage(b)
  {
  }

  /** The five labels are pairwise different, so comparing and grouping the
      label texts (as the dashboard does) is comparing and grouping stages. */
  lemma LabelInjective(s: Stage, t: Stage)
    ensures Label(s) == Label(t) <==> s == t
  {
    if s != t {
      assert |Label(s)| != |Label(t)| || Label(s)[0] != Label(t)[0];
    }
  }
}
