/** The classification itself and what the hooks keep of it (actionClassifier.ts, invoice.actionSeverity.ts). */
module ActionClassifier {
  import opened Text
  import opened Wrappers
  import opened ActionSeverity

  datatype Signal = Signal(severity: string, status: string)

  /** The value of a top-level field of an invoice; null and missing parts are `None` or the empty list. */
  datatype Value =
    | Status(s: string)
    | ParsedData(currency: Option<string>, customerGstin: Option<string>)
    | ExportData(error: Option<string>)
    | ComplianceData(riskSignals: seq<Signal>)
    | OtherValue(tag: int)

  datatype Reason = MissingGstin | FailedOcr | NeedsReview | AwaitingApproval | ExportFailed | CriticalRisk

  /** What an invoice stores: actionReason and actionSeverity. */
  datatype Pair = Pair(reason: Option<Reason>, severity: Option<int>)

  type Invoice = Doc<Value, Pair>

  const PENDING := "PENDING"
  const IS_PARSED := "PARSED"
  const NEEDS_REVIEW := "NEEDS_REVIEW"
  const AWAITING_APPROVAL := "AWAITING_APPROVAL"
  const FAILED_OCR := "FAILED_OCR"
  const FAILED_PARSE := "FAILED_PARSE"
  const APPROVED := "APPROVED"

  function Severity(r: Reason): int {
    match r
    case FailedOcr => 100
    case CriticalRisk => 90
    case ExportFailed => 80
    case MissingGstin => 70
    case NeedsReview => 50
    case AwaitingApproval => 30
  }

  // ---------- the classifier ----------

  function StatusOf(m: map<string, Value>): Option<string> {
    if STATUS in m && m[STATUS].Status? then Some(m[STATUS].s) else None
  }

  predicate HasExportError(m: map<string, Value>) {
    EXPORT in m && m[EXPORT].ExportData? && m[EXPORT].error.Some? && m[EXPORT].error.value != ""
  }

  predicate OpenCritical(s: Signal) {
    s.status == "open" && s.severity == "critical"
  }

  predicate HasOpenCritical(m: map<string, Value>) {
    COMPLIANCE in m && m[COMPLIANCE].ComplianceData?
    && exists k :: 0 <= k < |m[COMPLIANCE].riskSignals| && OpenCritical(m[COMPLIANCE].riskSignals[k])
  }

  function Currency(m: map<string, Value>): string {
    if PARSED in m && m[PARSED].ParsedData? && m[PARSED].currency.Some? then m[PARSED].currency.value else "INR"
  }

  function CustomerGstin(m: map<string, Value>): string {
    if PARSED in m && m[PARSED].ParsedData? && m[PARSED].customerGstin.Some?
    then Trim(m[PARSED].customerGstin.value, JS_SPACE)
    else ""
  }

  function ClassifyActionReason(m: map<string, Value>): Option<Reason> {
    var status := StatusOf(m);
    if status == Some(FAILED_OCR) || status == Some(FAILED_PARSE) then Some(FailedOcr)
    else if HasExportError(m) then Some(ExportFailed)
    else if HasOpenCritical(m) then Some(CriticalRisk)
    else if Currency(m) == "INR" && CustomerGstin(m) == "" && status != Some(PENDING) then Some(MissingGstin)
    else if status == Some(NEEDS_REVIEW) then Some(NeedsReview)
    else if status == Some(AWAITING_APPROVAL) then Some(AwaitingApproval)
    else None
  }

  function Classify(m: map<string, Value>): Pair {
    var reason := ClassifyActionReason(m);
    if reason.None? then Pair(None, None) else Pair(reason, Some(Severity(reason.value)))
  }

  lemma SamePair(m: map<string, Value>, n: map<string, Value>)
    ensures Classify(m) == Classify(n) <==> ClassifyActionReason(m) == ClassifyActionReason(n)
  {
  }

  // ---------- which of several reasons ----------

  /** The reason holds for itself, whatever other reasons there are. */
  predicate Applies(m: map<string, Value>, r: Reason) {
    var status := StatusOf(m);
    match r
    case FailedOcr => status == Some(FAILED_OCR) || status == Some(FAILED_PARSE)
    case ExportFailed => HasExportError(m)
    case CriticalRisk => HasOpenCritical(m)
    case MissingGstin => Currency(m) == "INR" && CustomerGstin(m) == "" && status != Some(PENDING)
    case NeedsReview => status == Some(NEEDS_REVIEW)
    case AwaitingApproval => status == Some(AWAITING_APPROVAL)
  }

  lemma ReasonApplies(m: map<string, Value>)
    ensures var reason := ClassifyActionReason(m);
      if reason.None? then forall r :: !Applies(m, r) else Applies(m, reason.value)
  {
    var reason := ClassifyActionReason(m);
    if reason.None? {
      forall r: Reason
        ensures !Applies(m, r)
      {
        match r
        case FailedOcr =>
        case ExportFailed =>
        case CriticalRisk =>
        case MissingGstin =>
        case NeedsReview =>
        case AwaitingApproval =>
      }
    }
  }

  /** Main result: the reason found is the gravest that applies, exactly unless an export error hides an open critical
      risk. */
  lemma GravestExactly(m: map<string, Value>)
    requires ClassifyActionReason(m).Some?
    ensures (forall r :: Applies(m, r) ==> Severity(r) <= Severity(ClassifyActionReason(m).value))
      <==> Applies(m, FailedOcr) || !Applies(m, ExportFailed) || !Applies(m, CriticalRisk)
  {
    if !Applies(m, FailedOcr) && Applies(m, ExportFailed) && Applies(m, CriticalRisk) {
      assert Severity(CriticalRisk) > Severity(ExportFailed);
    }
  }

  // ---------- what makes a reason apply ----------

  /** An invoice by its parts. */
  function InvoiceOf(status: string, currency: Option<string>, gstin: Option<string>, error: Option<string>,
                     signals: seq<Signal>): map<string, Value>
  {
    map["status" := Status(status), "parsed" := ParsedData(currency, gstin), "export" := ExportData(error),
        "compliance" := ComplianceData(signals)]
  }

  lemma PartsOf(status: string, currency: Option<string>, gstin: Option<string>, error: Option<string>,
                signals: seq<Signal>)
    ensures var m := InvoiceOf(status, currency, gstin, error, signals);
      && STATUS in m && m[STATUS] == Status(status) && PARSED in m && m[PARSED] == ParsedData(currency, gstin)
      && EXPORT in m && m[EXPORT] == ExportData(error) && COMPLIANCE in m && m[COMPLIANCE] == ComplianceData(signals)
  {
    RootsApart();
    assert PARSED[0] == 'p' && EXPORT[0] == 'e' && COMPLIANCE[0] == 'c';
  }

  /** Main result: each reason applies for what it says: a failed status; an error text that is not empty; an open
      critical signal; rupees, or no currency, without customer number past the pending status; a status that waits. */
  lemma ReasonsMean(status: string, currency: Option<string>, gstin: Option<string>, error: Option<string>,
                    signals: seq<Signal>)
    ensures var m := InvoiceOf(status, currency, gstin, error, signals);
      && (Applies(m, FailedOcr) <==> status == "FAILED_OCR" || status == "FAILED_PARSE")
      && (Applies(m, ExportFailed) <==> error.Some? && error.value != "")
      && (Applies(m, CriticalRisk) <==> exists s :: s in signals && s.status == "open" && s.severity == "critical")
      && (Applies(m, MissingGstin) <==>
            (currency.None? || currency.value == "INR") && (gstin.None? || Blank(gstin.value, JS_SPACE)) &&
              status != "PENDING")
      && (Applies(m, NeedsReview) <==> status == "NEEDS_REVIEW")
      && (Applies(m, AwaitingApproval) <==> status == "AWAITING_APPROVAL")
  {
    PartsOf(status, currency, gstin, error, signals);
    if gstin.Some? { var _, _ := TrimShape(gstin.value, JS_SPACE); }
    OpenAmong(signals);
  }

  lemma OpenAmong(signals: seq<Signal>)
    ensures (exists k :: 0 <= k < |signals| && OpenCritical(signals[k])) <==>
      exists s :: s in signals && s.status == "open" && s.severity == "critical"
  {
    if s :| s in signals && s.status == "open" && s.severity == "critical" {
      var k :| 0 <= k < |signals| && signals[k] == s;
      assert OpenCritical(signals[k]);
    }
  }

  /** Main result: the reason decides the stored severity. */
  lemma PairMeans(m: map<string, Value>)
    ensures Classify(m).reason == ClassifyActionReason(m)
    ensures Classify(m).severity == match ClassifyActionReason(m)
                                    case None => None
                                    case Some(FailedOcr) => Some(100)
                                    case Some(CriticalRisk) => Some(90)
                                    case Some(ExportFailed) => Some(80)
                                    case Some(MissingGstin) => Some(70)
                                    case Some(NeedsReview) => Some(50)
                                    case Some(AwaitingApproval) => Some(30)
  {
  }

  // ---------- what a change of status does to the classification ----------

  /** Statuses that the classifier tells apart. */
  datatype StatusClass = Failed | Pending | Review | Approval | Plain

  function ClassOf(v: Value): StatusClass {
    if v == Status(FAILED_OCR) || v == Status(FAILED_PARSE) then Failed
    else if v == Status(PENDING) then Pending
    else if v == Status(NEEDS_REVIEW) then Review
    else if v == Status(AWAITING_APPROVAL) then Approval
    else Plain
  }

  /** The reason from the status and the rest. */
  function ReasonBy(c: StatusClass, m: map<string, Value>): Option<Reason> {
    if c == Failed then Some(FailedOcr)
    else if HasExportError(m) then Some(ExportFailed)
    else if HasOpenCritical(m) then Some(CriticalRisk)
    else if Currency(m) == "INR" && CustomerGstin(m) == "" && c != Pending then Some(MissingGstin)
    else if c == Review then Some(NeedsReview)
    else if c == Approval then Some(AwaitingApproval)
    else None
  }

  lemma RootsApart()
    ensures STATUS != PARSED && STATUS != EXPORT && STATUS != COMPLIANCE
  {
    assert STATUS[0] == 's' && PARSED[0] == 'p' && EXPORT[0] == 'e' && COMPLIANCE[0] == 'c';
  }

  lemma StatusesApart()
    ensures FAILED_OCR !in {PENDING, NEEDS_REVIEW, AWAITING_APPROVAL, APPROVED, IS_PARSED}
    ensures FAILED_PARSE !in {PENDING, NEEDS_REVIEW, AWAITING_APPROVAL, APPROVED, IS_PARSED}
    ensures PENDING !in {NEEDS_REVIEW, AWAITING_APPROVAL, APPROVED, IS_PARSED}
    ensures NEEDS_REVIEW !in {AWAITING_APPROVAL, APPROVED, IS_PARSED}
    ensures AWAITING_APPROVAL !in {APPROVED, IS_PARSED}
  {
    assert |FAILED_OCR| == 10 && |FAILED_PARSE| == 12 && FAILED_PARSE[0] == 'F' && |PENDING| == 7;
    assert |NEEDS_REVIEW| == 12 && NEEDS_REVIEW[0] == 'N' && |AWAITING_APPROVAL| == 17;
    assert |APPROVED| == 8 && |IS_PARSED| == 6;
  }

  lemma ReasonWithStatus(m: map<string, Value>, v: Value)
    ensures ClassifyActionReason(m[STATUS := v]) == ReasonBy(ClassOf(v), m)
  {
    RootsApart();
    StatusesApart();
    var n := m[STATUS := v];
    assert StatusOf(n) == if v.Status? then Some(v.s) else None;
    assert HasExportError(n) == HasExportError(m) && HasOpenCritical(n) == HasOpenCritical(m);
    assert Currency(n) == Currency(m) && CustomerGstin(n) == CustomerGstin(m);
  }

  lemma ReasonOfStatus(m: map<string, Value>)
    requires STATUS in m
    ensures ClassifyActionReason(m) == ReasonBy(ClassOf(m[STATUS]), m)
  {
    assert m[STATUS := m[STATUS]] == m;
    ReasonWithStatus(m, m[STATUS]);
  }

  /** An invoice on which two classes of statuses give different reasons. */
  lemma ClassesShow(c: StatusClass, d: StatusClass) returns (m: map<string, Value>)
    requires c != d
    ensures m.Keys <= ROOTS && ReasonBy(c, m) != ReasonBy(d, m)
  {
    RootsApart();
    if (c == Pending && d == Plain) || (c == Plain && d == Pending) {
      m := map[];
    } else {
      m := map[PARSED := ParsedData(Some("USD"), None)];
      assert "USD"[0] != "INR"[0];
    }
  }

  // ---------- updates of the status ----------

  lemma SelectedStatus(u: Update, also: Invoice -> bool, from: set<Value>, to: Value, d: Invoice)
    requires StatusMove(u, also, from, to).filter(d)
    ensures STATUS in Inputs(d) && Inputs(d)[STATUS] in from
    ensures Classify(Inputs(d)) == Classify(Inputs(d)[STATUS := to]) <==>
      ReasonBy(ClassOf(Inputs(d)[STATUS]), Inputs(d)) == ReasonBy(ClassOf(to), Inputs(d))
  {
    var m := Inputs(d);
    assert STATUS in ROOTS;
    SamePair(m, m[STATUS := to]);
    ReasonOfStatus(m);
    ReasonWithStatus(m, to);
  }

  /** Main result: an update that moves invoices from some statuses to another keeps the stored classification exactly
      if the new status is one of the old ones, or the classifier does not tell it from any of them. */
  lemma MovesByClass(u: Update, from: set<Value>, to: Value)
    requires WritesStatusOnly(u)
    ensures KeepsUnder(Classify, StatusMove(u, (d: Invoice) => true, from, to)) <==>
      to in from || forall v :: v in from ==> ClassOf(v) == ClassOf(to)
  {
    var also := (d: Invoice) => true;
    var op := StatusMove(u, also, from, to);
    if to in from {
      StatusMoveWithin(Classify, u, also, from, to);
    } else {
      StatusMoveUnder(Classify, u, also, from, to);
      forall d | op.filter(d)
        ensures Inputs(d)[STATUS] in from
        ensures Classify(Inputs(d)) == Classify(Inputs(d)[STATUS := to]) <==>
          ReasonBy(ClassOf(Inputs(d)[STATUS]), Inputs(d)) == ReasonBy(ClassOf(to), Inputs(d))
      {
        SelectedStatus(u, also, from, to, d);
      }
      if v :| v in from && ClassOf(v) != ClassOf(to) {
        var d := TellTale(v, to);
        assert op.filter(d);
      }
    }
  }

  lemma SameRest(m: map<string, Value>, v: Value, c: StatusClass)
    ensures ReasonBy(c, m[STATUS := v]) == ReasonBy(c, m)
  {
    RootsApart();
    var n := m[STATUS := v];
    assert HasExportError(n) == HasExportError(m) && HasOpenCritical(n) == HasOpenCritical(m);
    assert Currency(n) == Currency(m) && CustomerGstin(n) == CustomerGstin(m);
  }

  /** An invoice with status `v` whose classification another class of status would change. */
  lemma TellTale(v: Value, to: Value) returns (d: Invoice)
    requires ClassOf(v) != ClassOf(to)
    ensures STATUS in d.fields && d.fields[STATUS] == v
    ensures Inputs(d)[STATUS] == v && ReasonBy(ClassOf(v), Inputs(d)) != ReasonBy(ClassOf(to), Inputs(d))
  {
    var m := ClassesShow(ClassOf(v), ClassOf(to));
    d := Doc(m[STATUS := v], Pair(None, None));
    assert STATUS in ROOTS;
    assert Inputs(d) == m[STATUS := v];
    SameRest(m, v, ClassOf(v));
    SameRest(m, v, ClassOf(to));
  }

  /** The bulk approval, and the end of the approval workflow. */
  const APPROVE: map<string, seq<string>> := map["$push" := ["processingIssues"], "$set" := [STATUS, "approval"]]
  const END_WORKFLOW: map<string, seq<string>> :=
    map["$unset" := ["workflowState"], "$push" := ["processingIssues"], "$set" := [STATUS]]

  lemma FlatRoot(key: string)
    requires forall i :: 0 <= i < |key| ==> key[i] != '.'
    ensures Root(key) == key
  {
    RootOf(key, key);
  }

  lemma ClassifiedLength(f: string)
    requires f in ROOTS + STORED_FIELDS
    ensures |f| != 8 && |f| != 13 && |f| != 16
  {
  }

  lemma UnclassifiedKey(key: string)
    requires |key| in {8, 13, 16} && forall i :: 0 <= i < |key| ==> key[i] != '.'
    ensures Root(key) == key && Root(key) !in ROOTS + STORED_FIELDS
  {
    FlatRoot(key);
    if key in ROOTS + STORED_FIELDS { ClassifiedLength(key); }
  }

  /** The status, or a key beside the classified fields. */
  ghost predicate StatusOrBeside(key: string) {
    Root(key) == STATUS || Root(key) !in ROOTS + STORED_FIELDS
  }

  lemma StatusKey()
    ensures StatusOrBeside(STATUS)
  {
    FlatRoot(STATUS);
  }

  lemma ApprovalKey()
    ensures StatusOrBeside("approval")
  {
    UnclassifiedKey("approval");
  }

  lemma IssuesKey()
    ensures StatusOrBeside("processingIssues")
  {
    UnclassifiedKey("processingIssues");
  }

  lemma WorkflowKey()
    ensures StatusOrBeside("workflowState")
  {
    UnclassifiedKey("workflowState");
  }

  lemma StatusOnly(u: Update)
    requires u.Update? && u.bare == {} && "$set" in u.operators && STATUS in u.operators["$set"]
    requires forall o :: o in u.operators ==> forall k :: k in u.operators[o] ==> StatusOrBeside(k)
    ensures WritesStatusOnly(u)
  {
    forall f | f in ROOTS + STORED_FIELDS && Writes(u, f)
      ensures f == STATUS
    {
      var o, k :| o in u.operators && k in u.operators[o] && Root(k) == f;
      assert StatusOrBeside(k);
    }
  }

  ghost predicate AllBeside(keys: seq<string>) {
    forall k :: k in keys ==> StatusOrBeside(k)
  }

  /** The status is set, and what the two other operators write is beside the classified fields. */
  lemma ThreeOperators(written: seq<string>, a: string, x: seq<string>, b: string, y: seq<string>)
    requires STATUS in written && AllBeside(written) && AllBeside(x) && AllBeside(y)
    requires a != "$set" && b != "$set"
    ensures WritesStatusOnly(Update(map[a := x, b := y, "$set" := written], {}))
  {
    var operators := map[a := x, b := y, "$set" := written];
    assert operators["$set"] == written;
    assert forall o :: o in operators ==> operators[o] in [x, y, written];
    StatusOnly(Update(operators, {}));
  }

  lemma KeysBeside()
    ensures AllBeside([STATUS, "approval"]) && AllBeside([STATUS])
    ensures AllBeside(["processingIssues"]) && AllBeside(["workflowState"])
  {
    StatusKey();
    ApprovalKey();
    IssuesKey();
    WorkflowKey();
  }

  lemma BothStatusOnly()
    ensures WritesStatusOnly(Update(APPROVE, {})) && WritesStatusOnly(Update(END_WORKFLOW, {}))
  {
    KeysBeside();
    assert |"$set"| == 4 && |"$unset"| == 6 && |"$push"| == 5;
    assert [STATUS][0] == STATUS && [STATUS, "approval"][0] == STATUS;
    ThreeOperators([STATUS, "approval"], "$push", ["processingIssues"], "$push", ["processingIssues"]);
    ThreeOperators([STATUS], "$unset", ["workflowState"], "$push", ["processingIssues"]);
    var pushed := ["processingIssues"];
    assert APPROVE == map["$push" := pushed, "$push" := pushed, "$set" := [STATUS, "approval"]];
  }

  lemma Classes()
    ensures ClassOf(Status(IS_PARSED)) == Plain && ClassOf(Status(APPROVED)) == Plain
    ensures ClassOf(Status(NEEDS_REVIEW)) == Review && ClassOf(Status(AWAITING_APPROVAL)) == Approval
  {
    StatusesApart();
  }

  ghost predicate NoneClassified(op: Operation<Value, Pair>, r: Reason) {
    forall d :: op.filter(d) ==> ClassifyActionReason(Inputs(d)) != Some(r)
  }

  /** Main result: the bulk approval keeps every stored classification exactly if it selects no invoice classified
      NeedsReview. */
  lemma ApprovalExactly(also: Invoice -> bool)
    requires ReadsElsewhere(Update(APPROVE, {}), also)
    ensures var op := StatusMove(Update(APPROVE, {}), also, {Status(IS_PARSED), Status(NEEDS_REVIEW)},
                                 Status(APPROVED));
      KeepsUnder(Classify, op) <==> NoneClassified(op, NeedsReview)
  {
    Classes();
    StatusesApart();
    BothStatusOnly();
    MoveChanges(Update(APPROVE, {}), also, {Status(IS_PARSED), Status(NEEDS_REVIEW)}, Status(APPROVED), Review);
  }

  /** Main result: ending the approval workflow keeps every stored classification exactly if it selects no invoice
      classified AwaitingApproval. */
  lemma EndWorkflowExactly(also: Invoice -> bool)
    requires ReadsElsewhere(Update(END_WORKFLOW, {}), also)
    ensures var op := StatusMove(Update(END_WORKFLOW, {}), also, {Status(AWAITING_APPROVAL)}, Status(NEEDS_REVIEW));
      KeepsUnder(Classify, op) <==> NoneClassified(op, AwaitingApproval)
  {
    Classes();
    StatusesApart();
    BothStatusOnly();
    MoveChanges(Update(END_WORKFLOW, {}), also, {Status(AWAITING_APPROVAL)}, Status(NEEDS_REVIEW), Approval);
  }

  function ReasonOfClass(c: StatusClass): Reason
    requires c == Review || c == Approval
  {
    if c == Review then NeedsReview else AwaitingApproval
  }

  /** Leaving one class of waiting invoices changes the reason of those that have that class for a reason. */
  lemma LeavingClass(c: StatusClass, x: StatusClass, to: StatusClass, m: map<string, Value>)
    requires c == Review || c == Approval
    requires (x == c || x == to) && to != c && (to == Plain || to == Review)
    ensures ReasonBy(x, m) == ReasonBy(to, m) <==> ReasonBy(x, m) != Some(ReasonOfClass(c))
  {
  }

  lemma MoveChanges(u: Update, also: Invoice -> bool, from: set<Value>, to: Value, c: StatusClass)
    requires WritesStatusOnly(u) && ReadsElsewhere(u, also) && to !in from
    requires c == Review || c == Approval
    requires ClassOf(to) != c && (ClassOf(to) == Plain || ClassOf(to) == Review)
    requires forall v :: v in from ==> ClassOf(v) == c || ClassOf(v) == ClassOf(to)
    ensures var op := StatusMove(u, also, from, to); KeepsUnder(Classify, op) <==> NoneClassified(op, ReasonOfClass(c))
  {
    var op := StatusMove(u, also, from, to);
    StatusMoveUnder(Classify, u, also, from, to);
    forall d | op.filter(d)
      ensures Classify(Inputs(d)) == Classify(Inputs(d)[STATUS := to]) <==>
        ClassifyActionReason(Inputs(d)) != Some(ReasonOfClass(c))
    {
      SelectedStatus(u, also, from, to, d);
      ReasonOfStatus(Inputs(d));
      LeavingClass(c, ClassOf(Inputs(d)[STATUS]), ClassOf(to), Inputs(d));
    }
  }

  // ---------- renames ----------

  /** Main result: a rename onto the status, which is not inspected, leaves a wrong classification on any invoice that
      it may select. */
  lemma RenameBreaksHere(source: string, filter: Invoice -> bool, d: Invoice)
    requires filter(d) && ReadsElsewhere(Update(map["$rename" := [source, STATUS]], {}), filter)
    ensures !KeepsUnder(Classify, KeysOnly(Update(map["$rename" := [source, STATUS]], {}), filter))
  {
    var names := [source, STATUS];
    assert names[1] == STATUS && |"$rename"| == 7;
    StatusWritten(Update(map["$rename" := names], {}), "$rename");
    RenameIsNotInspected(names);
    UninspectedStatusBreaks(Update(map["$rename" := names], {}), filter, d);
  }

  lemma UninspectedStatusBreaks(u: Update, filter: Invoice -> bool, d: Invoice)
    requires Writes(u, STATUS) && !Touches(u) && filter(d) && ReadsElsewhere(u, filter)
    ensures !KeepsUnder(Classify, KeysOnly(u, filter))
  {
    var before, after := WrongStatus(d);
    assert forall f :: SameField(d, before, f);
    assert filter(before) && Respects(u, before, after);
    KeepsUnderExactly(Classify, KeysOnly(u, filter));
  }

  /** Another status under which the stored pair of an invoice is wrong. */
  lemma WrongStatus(d: Invoice) returns (before: Invoice, after: Invoice)
    ensures before == d.(stored := Classify(Inputs(d))) && Right(Classify, before)
    ensures after.stored == before.stored && !Right(Classify, after)
    ensures forall f :: f != STATUS ==> SameField(before, after, f)
  {
    before := d.(stored := Classify(Inputs(d)));
    assert Inputs(before) == Inputs(d);
    var m := Inputs(d);
    var v := Status(if ClassifyActionReason(m) == Some(FailedOcr) then APPROVED else FAILED_OCR);
    after := before.(fields := before.fields[STATUS := v]);
    assert STATUS in ROOTS;
    assert Inputs(after) == m[STATUS := v];
    StatusesApart();
    ReasonWithStatus(m, v);
    SamePair(m, m[STATUS := v]);
  }
}
