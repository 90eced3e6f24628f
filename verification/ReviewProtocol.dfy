/** The review, correction and approval protocol: tables, atomic steps, and what every run of steps keeps. */
module ReviewProtocol {
  import opened Collections
  import opened Text

  type Id = nat

  datatype RunStatus = DraftRun | InReview | ReadyForApproval | Archived
  datatype IssueStatus = IssuePending | IssueResolved | IssueSkipped
  datatype Origin = RuleBased | Ai | Human
  datatype CorrectionStatus = Accepted | Edited | Rejected | Skipped
  datatype RequestStatus = Pending | PartiallyApproved | Approved | Refused
  datatype Verdict = Approve | Refuse

  datatype Issue = Issue(run: Id, recordRef: string, status: IssueStatus)
  datatype Suggestion = Suggestion(issue: Id, value: string, origin: Origin, selected: bool)
  datatype Correction = Correction(id: Id, suggestion: Option<Id>, finalValue: Option<string>,
                                   origin: Option<Origin>, status: CorrectionStatus)
  datatype Request = Request(run: Id, status: RequestStatus, issueCount: nat, recordCount: nat, decided: bool)
  datatype Decision = Decision(request: Id, verdict: Verdict, issues: set<Id>)
  /** An ISSUE -> CORRECTION lineage edge. */
  datatype Edge = Edge(issue: Id, correction: Id)
  datatype Draft = Draft(issue: Id, value: string, origin: Origin)

  /** The tables; corrections are keyed by their unique issue. */
  datatype Db = Db(runs: map<Id, RunStatus>, issues: map<Id, Issue>, suggestions: map<Id, Suggestion>,
                   corrections: map<Id, Correction>, requests: map<Id, Request>, decisions: seq<Decision>,
                   edges: seq<Edge>, nextId: Id)

  datatype Error = NotFound | Incomplete | WrongStatus | AlreadyDecided | EmptyValue | AlreadyPending
                 | NothingResolved | NotInScope | MultipleRows

  /** Where a step leaves the tables; a refused step has an error. */
  datatype Outcome = Outcome(db: Db, error: Option<Error>)

  const EMPTY: Db := Db(map[], map[], map[], map[], map[], [], [], 0)

  function Fail(db: Db, e: Error): Outcome { Outcome(db, Some(e)) }

  function Done(db: Db): Outcome { Outcome(db, None) }

  predicate IsBlank(value: string) { Strip(value) == "" }

  predicate IsTerminal(s: CorrectionStatus) { s == Rejected || s == Skipped }

  predicate IsOpen(s: RequestStatus) { s == Pending || s == PartiallyApproved }

  // --- review runs ---------------------------------------------------------------------

  /** One PENDING issue per validation failure. */
  function AddIssues(db: Db, run: Id, refs: seq<string>): (r: Db)
    decreases |refs|
  {
    if refs == [] then db
    else AddIssues(db.(issues := db.issues[db.nextId := Issue(run, refs[0], IssuePending)], nextId := db.nextId + 1),
                   run, refs[1..])
  }

  /** `completed` is None when the validation run does not exist. */
  function CreateRun(db: Db, completed: Option<bool>, refs: seq<string>): Outcome {
    if completed.None? then Fail(db, NotFound)
    else if !completed.value then Fail(db, Incomplete)
    else Done(AddIssues(db.(runs := db.runs[db.nextId := DraftRun], nextId := db.nextId + 1), db.nextId, refs))
  }

  /** The PENDING issues of the run that have no suggestion yet. */
  function Targets(db: Db, run: Id): set<Id> {
    set i | i in db.issues && db.issues[i].run == run && db.issues[i].status == IssuePending
         && forall s :: s in db.suggestions ==> db.suggestions[s].issue != i
  }

  function AddDrafts(db: Db, targets: set<Id>, drafts: seq<Draft>): Db
    decreases |drafts|
  {
    if drafts == [] then db
    else if drafts[0].issue !in targets then AddDrafts(db, targets, drafts[1..])
    else
      var s := Suggestion(drafts[0].issue, drafts[0].value, drafts[0].origin, false);
      AddDrafts(db.(suggestions := db.suggestions[db.nextId := s], nextId := db.nextId + 1), targets, drafts[1..])
  }

  /** Suggestion generation starts the review; what the generators propose is a parameter. */
  function Generate(db: Db, run: Id, drafts: seq<Draft>): Outcome {
    if run !in db.runs then Fail(db, NotFound)
    else
      var begun := if db.runs[run] == DraftRun then db.(runs := db.runs[run := InReview]) else db;
      Done(AddDrafts(begun, Targets(db, run), drafts))
  }

  // --- correction decisions ---------------------------------------------------------------

  /** `_upsert_correction`: the row is created once, with its edge, and updated afterwards. */
  function Upsert(db: Db, issue: Id, suggestion: Option<Id>, finalValue: Option<string>,
                  origin: Option<Origin>, status: CorrectionStatus): Db {
    if issue in db.corrections then
      db.(corrections := db.corrections[issue := Correction(db.corrections[issue].id, suggestion, finalValue, origin,
                                                            status)])
    else
      db.(corrections := db.corrections[issue := Correction(db.nextId, suggestion, finalValue, origin, status)],
          edges := db.edges + [Edge(issue, db.nextId)], nextId := db.nextId + 1)
  }

  function SetStatus(db: Db, issue: Id, status: IssueStatus): Db
    requires issue in db.issues
  {
    db.(issues := db.issues[issue := db.issues[issue].(status := status)])
  }

  /** `_clear_other_selections` and the selection of one suggestion. */
  function Select(suggestions: map<Id, Suggestion>, issue: Id, chosen: Id): (r: map<Id, Suggestion>)
    ensures r.Keys == suggestions.Keys
  {
    map s | s in suggestions ::
      suggestions[s].(selected := s == chosen || (suggestions[s].issue != issue && suggestions[s].selected))
  }

  /** The guards every single decision shares: the run is not frozen, the correction not terminal. */
  function Guard(db: Db, issue: Id): Option<Error>
    requires issue in db.issues
  {
    if db.issues[issue].run in db.runs && db.runs[db.issues[issue].run] == ReadyForApproval then Some(WrongStatus)
    else if issue in db.corrections && IsTerminal(db.corrections[issue].status) then Some(AlreadyDecided)
    else None
  }

  function Accept(db: Db, suggestion: Id): Outcome {
    if suggestion !in db.suggestions || db.suggestions[suggestion].issue !in db.issues then Fail(db, NotFound)
    else
      var s := db.suggestions[suggestion];
      if Guard(db, s.issue).Some? then Fail(db, Guard(db, s.issue).value)
      else if IsBlank(s.value) then Fail(db, EmptyValue)
      else
        var r := Upsert(db, s.issue, Some(suggestion), Some(s.value), Some(s.origin), Accepted);
        Done(SetStatus(r.(suggestions := Select(r.suggestions, s.issue, suggestion)), s.issue, IssueResolved))
  }

  function Edit(db: Db, suggestion: Id, value: string): Outcome {
    if suggestion !in db.suggestions || db.suggestions[suggestion].issue !in db.issues then Fail(db, NotFound)
    else
      var s := db.suggestions[suggestion];
      if Guard(db, s.issue).Some? then Fail(db, Guard(db, s.issue).value)
      else if IsBlank(value) then Fail(db, EmptyValue)
      else
        var r := Upsert(db, s.issue, Some(suggestion), Some(value), Some(Human), Edited);
        Done(SetStatus(r.(suggestions := Select(r.suggestions, s.issue, suggestion)), s.issue, IssueResolved))
  }

  function Reject(db: Db, suggestion: Id): Outcome {
    if suggestion !in db.suggestions || db.suggestions[suggestion].issue !in db.issues then Fail(db, NotFound)
    else
      var s := db.suggestions[suggestion];
      if Guard(db, s.issue).Some? then Fail(db, Guard(db, s.issue).value)
      else Done(SetStatus(Upsert(db, s.issue, Some(suggestion), None, Some(s.origin), Rejected), s.issue,
                          IssueResolved))
  }

  function Skip(db: Db, issue: Id): Outcome {
    if issue !in db.issues then Fail(db, NotFound)
    else if Guard(db, issue).Some? then Fail(db, Guard(db, issue).value)
    else Done(SetStatus(Upsert(db, issue, None, None, None, Skipped), issue, IssueSkipped))
  }

  function CorrectDirectly(db: Db, issue: Id, value: string): Outcome {
    if issue !in db.issues then Fail(db, NotFound)
    else if Guard(db, issue).Some? then Fail(db, Guard(db, issue).value)
    else if IsBlank(value) then Fail(db, EmptyValue)
    else Done(SetStatus(Upsert(db, issue, None, Some(value), Some(Human), Edited), issue, IssueResolved))
  }

  /** The validation pass of a bulk action: the first bad issue decides the error. */
  function BulkError(db: Db, issues: seq<Id>): Option<Error> {
    if issues == [] then None
    else if issues[0] !in db.issues then Some(NotFound)
    else if issues[0] in db.corrections && IsTerminal(db.corrections[issues[0]].status) then Some(AlreadyDecided)
    else BulkError(db, issues[1..])
  }

  function BulkOne(db: Db, issue: Id, skip: bool): Db
    requires issue in db.issues
  {
    SetStatus(Upsert(db, issue, None, None, None, if skip then Skipped else Rejected), issue,
              if skip then IssueSkipped else IssueResolved)
  }

  function BulkApply(db: Db, issues: seq<Id>, skip: bool): (r: Db)
    requires forall i :: i in issues ==> i in db.issues
    decreases |issues|
  {
    if issues == [] then db
    else
      var i := issues[0];
      assert i in issues;
      BulkApply(BulkOne(db, i, skip), issues[1..], skip)
  }

  lemma {:induction false} BulkErrorNone(db: Db, issues: seq<Id>)
    ensures BulkError(db, issues).None? <==>
      forall i :: i in issues ==> i in db.issues && !(i in db.corrections && IsTerminal(db.corrections[i].status))
  {
    if issues != [] {
      BulkErrorNone(db, issues[1..]);
      assert issues == [issues[0]] + issues[1..];
    }
  }

  function Bulk(db: Db, run: Id, issues: seq<Id>, skip: bool): Outcome {
    if run !in db.runs then Fail(db, NotFound)
    else if db.runs[run] == ReadyForApproval then Fail(db, WrongStatus)
    else if BulkError(db, issues).Some? then Fail(db, BulkError(db, issues).value)
    else
      BulkErrorNone(db, issues);
      Done(BulkApply(db, issues, skip))
  }

  // --- approval -----------------------------------------------------------------------------

  predicate IsResolvedIn(db: Db, run: Id, i: Id) {
    && i in db.issues && db.issues[i].run == run && i in db.corrections
    && db.corrections[i].finalValue.Some? && !IsTerminal(db.corrections[i].status)
  }

  /** `_resolved_scope`: issues with a final value that were accepted or edited. */
  function ResolvedScope(db: Db, run: Id): (s: set<Id>)
    ensures forall i :: i in s <==> IsResolvedIn(db, run, i)
  {
    set i | i in db.issues && IsResolvedIn(db, run, i)
  }

  function RecordCount(db: Db, scope: set<Id>): nat
    requires forall i :: i in scope ==> i in db.issues
  {
    |set i | i in scope :: db.issues[i].recordRef|
  }

  /** `_decided_issue_ids` */
  function Decided(decisions: seq<Decision>, request: Id): (s: set<Id>)
    ensures forall i :: i in s <==> exists d :: d in decisions && d.request == request && i in d.issues
  {
    if decisions == [] then {}
    else
      assert decisions == [decisions[0]] + decisions[1..];
      (if decisions[0].request == request then decisions[0].issues else {}) + Decided(decisions[1..], request)
  }

  function Remaining(db: Db, request: Id): set<Id>
    requires request in db.requests
  {
    ResolvedScope(db, db.requests[request].run) - Decided(db.decisions, request)
  }

  function OpenRequests(db: Db, run: Id): set<Id> {
    set r | r in db.requests && db.requests[r].run == run && IsOpen(db.requests[r].status)
  }

  /** `scalar_one_or_none` raises when it finds two rows. */
  function Submit(db: Db, run: Id): Outcome {
    if run !in db.runs then Fail(db, NotFound)
    else if db.runs[run] != InReview then Fail(db, WrongStatus)
    else if |OpenRequests(db, run)| > 1 then Fail(db, MultipleRows)
    else if OpenRequests(db, run) != {} then Fail(db, AlreadyPending)
    else
      var scope := ResolvedScope(db, run);
      if scope == {} then Fail(db, NothingResolved)
      else Done(db.(requests := db.requests[db.nextId := Request(run, Pending, |scope|, RecordCount(db, scope), false)],
                    runs := db.runs[run := ReadyForApproval], nextId := db.nextId + 1))
  }

  /** `recompute_approval_request_status` */
  function Recompute(decisions: seq<Decision>, request: Id, remaining: set<Id>): RequestStatus {
    if remaining != {} then PartiallyApproved
    else if forall d :: d in decisions && d.request == request ==> d.verdict == Approve then Approved
    else Refused
  }

  function ToIds(issues: seq<Id>): set<Id> {
    set i | i in issues
  }

  function Decide(db: Db, request: Id, verdict: Verdict, issues: seq<Id>): Outcome {
    if request !in db.requests then Fail(db, NotFound)
    else
      var remaining, requested := Remaining(db, request), ToIds(issues);
      if requested == {} || !(requested <= remaining) then Fail(db, NotInScope)
      else
        var decisions := db.decisions + [Decision(request, verdict, requested)];
        var left := remaining - requested;
        var row := db.requests[request].(status := Recompute(decisions, request, left),
                                         decided := left == {} || db.requests[request].decided);
        Done(db.(decisions := decisions, requests := db.requests[request := row]))
  }

  function Archive(db: Db, run: Id): Outcome {
    if run !in db.runs then Fail(db, NotFound)
    else if db.runs[run] == Archived then Fail(db, WrongStatus)
    else if |OpenRequests(db, run)| > 1 then Fail(db, MultipleRows)
    else if OpenRequests(db, run) != {} then Fail(db, WrongStatus)
    else Done(db.(runs := db.runs[run := Archived]))
  }

  function Restore(db: Db, run: Id): Outcome {
    if run !in db.runs then Fail(db, NotFound)
    else if db.runs[run] != Archived then Fail(db, WrongStatus)
    else Done(db.(runs := db.runs[run := InReview]))
  }

  // --- runs of steps ---------------------------------------------------------------------------

  datatype Action =
    | DoCreate(completed: Option<bool>, refs: seq<string>)
    | DoGenerate(run: Id, drafts: seq<Draft>)
    | DoAccept(suggestion: Id)
    | DoEdit(suggestion: Id, value: string)
    | DoReject(suggestion: Id)
    | DoSkip(issue: Id)
    | DoCorrect(issue: Id, value: string)
    | DoBulk(run: Id, issues: seq<Id>, skip: bool)
    | DoSubmit(run: Id)
    | DoDecide(request: Id, verdict: Verdict, decidedIssues: seq<Id>)
    | DoArchive(run: Id)
    | DoRestore(run: Id)

  function Step(db: Db, a: Action): Outcome {
    match a
    case DoCreate(completed, refs) => CreateRun(db, completed, refs)
    case DoGenerate(run, drafts) => Generate(db, run, drafts)
    case DoAccept(s) => Accept(db, s)
    case DoEdit(s, value) => Edit(db, s, value)
    case DoReject(s) => Reject(db, s)
    case DoSkip(i) => Skip(db, i)
    case DoCorrect(i, value) => CorrectDirectly(db, i, value)
    case DoBulk(run, issues, skip) => Bulk(db, run, issues, skip)
    case DoSubmit(run) => Submit(db, run)
    case DoDecide(r, verdict, issues) => Decide(db, r, verdict, issues)
    case DoArchive(run) => Archive(db, run)
    case DoRestore(run) => Restore(db, run)
  }

  function Perform(db: Db, actions: seq<Action>): Db
    decreases |actions|
  {
    if actions == [] then db else Perform(Step(db, actions[0]).db, actions[1..])
  }

  /** A refused step changes nothing. */
  lemma RefusedStepsChangeNothing(db: Db, a: Action)
    ensures Step(db, a).error.Some? ==> Step(db, a).db == db
  {
  }
}
