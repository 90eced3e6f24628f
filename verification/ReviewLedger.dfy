/** The approval ledger: from the submit that creates a request until its run is archived. */
module ReviewLedger {
  import opened Collections
  import opened Text
  import opened ReviewProtocol
  import opened ReviewInvariants

  /** What the decisions recorded so far make of a request with this scope. */
  ghost function LedgerStatus(decisions: seq<Decision>, r: Id, scope: set<Id>): RequestStatus {
    if forall d :: d in decisions ==> d.request != r then Pending
    else if scope - Decided(decisions, r) != {} then PartiallyApproved
    else if forall d :: d in decisions && d.request == r ==> d.verdict == Approve then Approved
    else Refused
  }

  ghost predicate DecisionsPartition(decisions: seq<Decision>, r: Id, scope: set<Id>) {
    && (forall d :: d in decisions && d.request == r ==> d.issues != {} && d.issues <= scope)
    && (forall k, l :: 0 <= k < l < |decisions| && decisions[k].request == r && decisions[l].request == r ==>
          decisions[k].issues !! decisions[l].issues)
  }

  /** The run is frozen with this scope, and the request's status is what its disjoint decisions dictate. */
  ghost predicate Ledger(db: Db, r: Id, scope: set<Id>) {
    && r in db.requests && db.requests[r].run in db.runs
    && db.runs[db.requests[r].run] == ReadyForApproval
    && ResolvedScope(db, db.requests[r].run) == scope && scope != {}
    && db.requests[r].issueCount == |scope|
    && DecisionsPartition(db.decisions, r, scope)
    && db.requests[r].status == LedgerStatus(db.decisions, r, scope)
    && (db.requests[r].decided <==> scope <= Decided(db.decisions, r))
  }

  /** Decided plus remaining is the count fixed at submission. */
  lemma LedgerBalances(db: Db, r: Id, scope: set<Id>)
    requires Ledger(db, r, scope)
    ensures |Decided(db.decisions, r)| + |Remaining(db, r)| == db.requests[r].issueCount
    ensures Decided(db.decisions, r) <= scope
  {
    var decided := Decided(db.decisions, r);
    assert scope == decided + Remaining(db, r);
  }

  // --- opening a ledger ------------------------------------------------------------------

  /** A successful submit opens the ledger of the request it creates. */
  lemma SubmitOpensLedger(db: Db, run: Id)
    requires Inv(db) && Submit(db, run).error.None?
    ensures Ledger(Submit(db, run).db, db.nextId, ResolvedScope(db, run))
    ensures Submit(db, run).db.requests[db.nextId].status == Pending
  {
    var after, scope := Submit(db, run).db, ResolvedScope(db, run);
    assert forall d :: d in db.decisions ==> d.request != db.nextId;
    hide Inv;
    SubmitWrites(db, run);
    hide Submit;
    NoDecisionsYet(db.decisions, db.nextId);
    SameScope(db, after, run);
    hide ResolvedScope, Decided, Recompute;
    assert DecisionsPartition(after.decisions, db.nextId, scope);
    assert LedgerStatus(after.decisions, db.nextId, scope) == Pending;
    hide DecisionsPartition, LedgerStatus;
  }

  lemma SubmitWrites(db: Db, run: Id)
    requires Submit(db, run).error.None?
    ensures var after, scope := Submit(db, run).db, ResolvedScope(db, run);
      && db.nextId in after.requests && run in after.runs && after.runs[run] == ReadyForApproval && scope != {}
      && after.requests[db.nextId] == Request(run, Pending, |scope|, RecordCount(db, scope), false)
      && after.decisions == db.decisions && after.issues == db.issues && after.corrections == db.corrections
  {
    hide ResolvedScope, RecordCount, OpenRequests;
  }

  lemma {:induction false} NoDecisionsYet(decisions: seq<Decision>, r: Id)
    requires forall d :: d in decisions ==> d.request != r
    ensures Decided(decisions, r) == {}
  {
  }

  // --- steps that leave a ledger alone ------------------------------------------------------

  /** Nothing the ledger of r looks at has changed. */
  ghost predicate Untouched(db: Db, after: Db, r: Id) {
    && r in db.requests && r in after.requests && after.requests[r] == db.requests[r]
    && (var run := db.requests[r].run;
        && run in db.runs && run in after.runs && after.runs[run] == db.runs[run]
        && forall i :: IsResolvedIn(after, run, i) <==> IsResolvedIn(db, run, i))
    && after.decisions == db.decisions
  }

  lemma UntouchedKeepsLedger(db: Db, after: Db, r: Id, scope: set<Id>)
    requires Ledger(db, r, scope) && Untouched(db, after, r)
    ensures Ledger(after, r, scope)
  {
    hide DecisionsPartition, LedgerStatus, Decided;
    assert ResolvedScope(after, db.requests[r].run) == ResolvedScope(db, db.requests[r].run);
  }

  lemma CreateLeavesLedger(db: Db, completed: Option<bool>, refs: seq<string>, r: Id)
    requires Inv(db) && r in db.requests
    ensures Untouched(db, CreateRun(db, completed, refs).db, r)
  {
    var begun := db.(runs := db.runs[db.nextId := DraftRun], nextId := db.nextId + 1);
    AddIssuesFrame(begun, db.nextId, refs);
    var run := db.requests[r].run;
    assert run in db.runs && run < db.nextId;
    hide Inv, AddIssues;
    var after := CreateRun(db, completed, refs).db;
    if completed == Some(true) {
      forall i: Id ensures IsResolvedIn(after, run, i) <==> IsResolvedIn(db, run, i) {
        if i in db.issues { assert i < db.nextId by { assert Inv(db); } }
      }
    }
  }

  lemma GenerateLeavesLedger(db: Db, run: Id, drafts: seq<Draft>, r: Id)
    requires Inv(db) && r in db.requests && db.requests[r].run in db.runs
    requires db.runs[db.requests[r].run] == ReadyForApproval
    ensures Untouched(db, Generate(db, run, drafts).db, r)
  {
    hide Inv, AddDrafts, Targets;
    if run in db.runs {
      var begun := if db.runs[run] == DraftRun then db.(runs := db.runs[run := InReview]) else db;
      AddDraftsFrame(begun, Targets(db, run), drafts);
    }
  }

  /** A decision on an issue of another run leaves the frozen run's scope alone. */
  lemma ForeignDecisionLeavesLedger(db: Db, issue: Id, c: Correction, suggestions: map<Id, Suggestion>, r: Id)
    requires issue in db.issues && r in db.requests && db.requests[r].run in db.runs
    requires db.issues[issue].run != db.requests[r].run
    ensures Untouched(db, Decision1(db, issue, c, suggestions), r)
  {
    UpsertFrame(db, issue, c.suggestion, c.finalValue, c.origin, c.status);
    hide Upsert;
  }

  lemma DecisionActionsLeaveLedger(db: Db, a: Action, r: Id)
    requires a.DoAccept? || a.DoEdit? || a.DoReject? || a.DoSkip? || a.DoCorrect?
    requires r in db.requests && db.requests[r].run in db.runs && db.runs[db.requests[r].run] == ReadyForApproval
    ensures Untouched(db, Step(db, a).db, r)
  {
    hide Select, IsBlank;
    if Step(db, a).error.None? {
      match a
      case DoAccept(s) =>
        var row := db.suggestions[s];
        ForeignDecisionLeavesLedger(db, row.issue, Correction(0, Some(s), Some(row.value), Some(row.origin), Accepted),
                                    Select(db.suggestions, row.issue, s), r);
      case DoEdit(s, value) =>
        var row := db.suggestions[s];
        ForeignDecisionLeavesLedger(db, row.issue, Correction(0, Some(s), Some(value), Some(Human), Edited),
                                    Select(db.suggestions, row.issue, s), r);
      case DoReject(s) =>
        var row := db.suggestions[s];
        ForeignDecisionLeavesLedger(db, row.issue, Correction(0, Some(s), None, Some(row.origin), Rejected),
                                    db.suggestions, r);
      case DoSkip(i) =>
        ForeignDecisionLeavesLedger(db, i, Correction(0, None, None, None, Skipped), db.suggestions, r);
      case DoCorrect(i, value) =>
        ForeignDecisionLeavesLedger(db, i, Correction(0, None, Some(value), Some(Human), Edited), db.suggestions, r);
    }
  }

  /** What a caller of a bulk action has to observe: the listed issues belong to the named run. */
  ghost predicate BulkStaysInRun(db: Db, a: Action) {
    a.DoBulk? ==> forall i :: i in a.issues && i in db.issues ==> db.issues[i].run == a.run
  }

  lemma BulkLeavesLedger(db: Db, run: Id, issues: seq<Id>, skip: bool, r: Id)
    requires r in db.requests && db.requests[r].run in db.runs && db.runs[db.requests[r].run] == ReadyForApproval
    requires BulkStaysInRun(db, DoBulk(run, issues, skip))
    ensures Untouched(db, Bulk(db, run, issues, skip).db, r)
  {
    BulkErrorNone(db, issues);
    hide BulkApply, BulkError;
    var frozen := db.requests[r].run;
    if Bulk(db, run, issues, skip).error.None? {
      BulkApplyFrame(db, issues, skip);
      var after := BulkApply(db, issues, skip);
      forall i: Id ensures IsResolvedIn(after, frozen, i) <==> IsResolvedIn(db, frozen, i) {
        if i in issues { assert db.issues[i].run != frozen; } else { assert SameIssue(db, after, i); }
      }
    }
  }

  lemma RunActionsLeaveLedger(db: Db, a: Action, r: Id)
    requires Inv(db) && r in db.requests && db.runs[db.requests[r].run] == ReadyForApproval
    requires a.DoSubmit? || a.DoRestore? || (a.DoArchive? && a.run != db.requests[r].run)
    ensures Untouched(db, Step(db, a).db, r)
  {
    assert r < db.nextId && db.requests[r].run in db.runs;
    hide *;
    match a
    case DoSubmit(run) => SubmitLeavesOthers(db, run, r);
    case DoArchive(run) => ArchiveLeavesOthers(db, run, r);
    case DoRestore(run) => RestoreLeavesOthers(db, run, r);
    case _ =>
  }

  lemma SubmitLeavesOthers(db: Db, run: Id, r: Id)
    requires r in db.requests && r < db.nextId && db.requests[r].run in db.runs
    requires db.runs[db.requests[r].run] == ReadyForApproval
    ensures Untouched(db, Step(db, DoSubmit(run)).db, r)
  {
    hide ResolvedScope, RecordCount, OpenRequests, IsResolvedIn;
    SameResolved(db, Submit(db, run).db, db.requests[r].run);
  }

  lemma ArchiveLeavesOthers(db: Db, run: Id, r: Id)
    requires r in db.requests && db.requests[r].run in db.runs && run != db.requests[r].run
    ensures Untouched(db, Step(db, DoArchive(run)).db, r)
  {
    hide OpenRequests, IsResolvedIn;
    SameResolved(db, Archive(db, run).db, db.requests[r].run);
  }

  lemma RestoreLeavesOthers(db: Db, run: Id, r: Id)
    requires r in db.requests && db.requests[r].run in db.runs && db.runs[db.requests[r].run] == ReadyForApproval
    ensures Untouched(db, Step(db, DoRestore(run)).db, r)
  {
    hide IsResolvedIn;
    SameResolved(db, Restore(db, run).db, db.requests[r].run);
  }

  lemma SameResolved(db: Db, after: Db, run: Id)
    requires after.issues == db.issues && after.corrections == db.corrections
    ensures forall i :: IsResolvedIn(after, run, i) <==> IsResolvedIn(db, run, i)
  {
  }

  // --- deciding -----------------------------------------------------------------------------

  lemma {:induction false} DecidedSnoc(decisions: seq<Decision>, d: Decision, r: Id)
    ensures Decided(decisions + [d], r) == Decided(decisions, r) + (if d.request == r then d.issues else {})
  {
    if decisions == [] {
      assert decisions + [d] == [d] && [d][1..] == [];
    } else {
      assert (decisions + [d])[1..] == decisions[1..] + [d];
      DecidedSnoc(decisions[1..], d, r);
    }
  }

  /** A decision on another request adds nothing to this one's ledger. */
  lemma OtherDecisionLeavesLedger(db: Db, q: Id, verdict: Verdict, issues: seq<Id>, r: Id, scope: set<Id>)
    requires Ledger(db, r, scope) && q != r
    ensures Ledger(Decide(db, q, verdict, issues).db, r, scope)
    ensures Decide(db, q, verdict, issues).db.requests[r].run == db.requests[r].run
  {
    hide Recompute, ResolvedScope, Remaining, ToIds, Decided, DecisionsPartition, LedgerStatus;
    if Decide(db, q, verdict, issues).error.None? {
      var d := Decision(q, verdict, ToIds(issues));
      var after := Decide(db, q, verdict, issues).db;
      DecidedSnoc(db.decisions, d, r);
      assert ResolvedScope(after, db.requests[r].run) == scope by { SameScope(db, after, db.requests[r].run); }
      SnocOther(db.decisions, d, r, scope);
      SnocOtherPartition(db.decisions, d, r, scope);
    }
  }

  lemma SameScope(db: Db, after: Db, run: Id)
    requires db.issues == after.issues && db.corrections == after.corrections
    ensures ResolvedScope(after, run) == ResolvedScope(db, run)
  {
  }

  lemma SnocOther(decisions: seq<Decision>, d: Decision, r: Id, scope: set<Id>)
    requires d.request != r
    ensures LedgerStatus(decisions + [d], r, scope) == LedgerStatus(decisions, r, scope)
  {
    hide Decided;
    DecidedSnoc(decisions, d, r);
    SnocMembers(decisions, d);
  }

  lemma SnocOtherPartition(decisions: seq<Decision>, d: Decision, r: Id, scope: set<Id>)
    requires d.request != r && DecisionsPartition(decisions, r, scope)
    ensures DecisionsPartition(decisions + [d], r, scope)
  {
    SnocMembers(decisions, d);
    var longer := decisions + [d];
    forall k, l | 0 <= k < l < |longer| && longer[k].request == r && longer[l].request == r
      ensures longer[k].issues !! longer[l].issues
    {
      assert l < |decisions| && longer[l] == decisions[l] && longer[k] == decisions[k];
    }
  }

  lemma SnocMembers(decisions: seq<Decision>, d: Decision)
    ensures forall e :: e in decisions + [d] <==> e in decisions || e == d
  {
  }

  /** A successful decision on the request itself keeps the ledger and strictly shrinks what remains. */
  lemma DecideKeepsLedger(db: Db, verdict: Verdict, issues: seq<Id>, r: Id, scope: set<Id>)
    requires Ledger(db, r, scope) && Decide(db, r, verdict, issues).error.None?
    ensures Ledger(Decide(db, r, verdict, issues).db, r, scope)
    ensures Decide(db, r, verdict, issues).db.requests[r].run == db.requests[r].run
    ensures Remaining(Decide(db, r, verdict, issues).db, r) == Remaining(db, r) - ToIds(issues)
    ensures Remaining(Decide(db, r, verdict, issues).db, r) < Remaining(db, r)
  {
    hide ResolvedScope, Decided, ToIds;
    var requested := ToIds(issues);
    var d := Decision(r, verdict, requested);
    var after := Decide(db, r, verdict, issues).db;
    DecidedSnoc(db.decisions, d, r);
    SameScope(db, after, db.requests[r].run);
    SnocOwn(db.decisions, d, r, scope);
    var left := Remaining(db, r) - requested;
    assert left == scope - Decided(after.decisions, r);
    assert after.decisions[|db.decisions|] == d && d in after.decisions;
    assert after.requests[r].status == LedgerStatus(after.decisions, r, scope);
    assert DecisionsPartition(after.decisions, r, scope);
    EmptyDifference(scope, Decided(after.decisions, r));
    assert ResolvedScope(after, after.requests[r].run) == scope;
    assert !db.requests[r].decided;
  }

  lemma EmptyDifference(a: set<Id>, b: set<Id>)
    ensures a - b == {} <==> a <= b
  {
    forall i | i in a ensures i in b || i in a - b { }
  }

  lemma SnocOwn(decisions: seq<Decision>, d: Decision, r: Id, scope: set<Id>)
    requires DecisionsPartition(decisions, r, scope) && d.request == r
    requires d.issues != {} && d.issues <= scope - Decided(decisions, r)
    ensures DecisionsPartition(decisions + [d], r, scope)
  {
    var longer := decisions + [d];
    forall k, l | 0 <= k < l < |longer| && longer[k].request == r && longer[l].request == r
      ensures longer[k].issues !! longer[l].issues
    {
      if l == |decisions| {
        assert decisions[k] in decisions;
        assert longer[k].issues <= Decided(decisions, r);
      }
    }
  }

  /** A decided ledger accepts no more decisions. */
  lemma ClosedLedgerRefuses(db: Db, verdict: Verdict, issues: seq<Id>, r: Id, scope: set<Id>)
    requires Ledger(db, r, scope) && !IsOpen(db.requests[r].status)
    ensures Decide(db, r, verdict, issues).error == Some(NotInScope)
  {
    hide DecisionsPartition;
    assert Remaining(db, r) == {};
  }

  // --- whole runs ----------------------------------------------------------------------------

  /** Every step of a run keeps the ledger, until the run that owns it is archived. */
  lemma StepKeepsLedger(db: Db, a: Action, r: Id, scope: set<Id>)
    requires Inv(db) && Ledger(db, r, scope) && BulkStaysInRun(db, a)
    requires a == DoArchive(db.requests[r].run) ==> Step(db, a).error.Some?
    ensures Ledger(Step(db, a).db, r, scope)
    ensures Step(db, a).db.requests[r].run == db.requests[r].run
  {
    hide Inv, DecisionsPartition, LedgerStatus, ResolvedScope;
    match a
    case DoDecide(q, verdict, issues) =>
      if q != r {
        hide Decide;
        OtherDecisionLeavesLedger(db, q, verdict, issues, r, scope);
      } else if Decide(db, r, verdict, issues).error.None? {
        hide Decide;
        DecideKeepsLedger(db, verdict, issues, r, scope);
      }
    case _ =>
      if a != DoArchive(db.requests[r].run) {
        hide Step;
        OtherStepsLeaveLedger(db, a, r);
        UntouchedKeepsLedger(db, Step(db, a).db, r, scope);
      }
  }

  lemma OtherStepsLeaveLedger(db: Db, a: Action, r: Id)
    requires Inv(db) && r in db.requests && db.runs[db.requests[r].run] == ReadyForApproval
    requires BulkStaysInRun(db, a) && !a.DoDecide? && a != DoArchive(db.requests[r].run)
    ensures Untouched(db, Step(db, a).db, r)
  {
    assert db.requests[r].run in db.runs;
    hide Inv, Untouched, CreateRun, Generate, Accept, Edit, Reject, Skip, CorrectDirectly, Bulk, Submit, Archive,
         Restore;
    match a
    case DoCreate(completed, refs) => CreateLeavesLedger(db, completed, refs, r);
    case DoGenerate(run, drafts) => GenerateLeavesLedger(db, run, drafts, r);
    case DoBulk(run, issues, skip) => BulkLeavesLedger(db, run, issues, skip, r);
    case DoSubmit(_) => RunActionsLeaveLedger(db, a, r);
    case DoArchive(_) => RunActionsLeaveLedger(db, a, r);
    case DoRestore(_) => RunActionsLeaveLedger(db, a, r);
    case _ => DecisionActionsLeaveLedger(db, a, r);
  }

  /** The steps a ledger survives: bulk actions stay in their run, and the owning run is not archived. */
  ghost predicate Admissible(db: Db, actions: seq<Action>, run: Id)
    decreases |actions|
  {
    actions == [] ||
    (&& BulkStaysInRun(db, actions[0])
     && (actions[0] == DoArchive(run) ==> Step(db, actions[0]).error.Some?)
     && Admissible(Step(db, actions[0]).db, actions[1..], run))
  }

  /** The ledger holds over every admissible run of steps, with one and the same scope. */
  lemma {:induction false} LedgerOverRuns(db: Db, actions: seq<Action>, r: Id, scope: set<Id>)
    requires Inv(db) && Ledger(db, r, scope) && Admissible(db, actions, db.requests[r].run)
    ensures Ledger(Perform(db, actions), r, scope)
    ensures Perform(db, actions).requests[r].run == db.requests[r].run
    decreases |actions|
  {
    if actions != [] {
      StepKeeps(db, actions[0]);
      StepKeepsLedger(db, actions[0], r, scope);
      hide Inv, Ledger, Step;
      LedgerOverRuns(Step(db, actions[0]).db, actions[1..], r, scope);
    }
  }

  /**
    From empty tables: after any steps, a successful submit, and any further steps that are admissible for its run,
    the ledger of the request it created holds with the scope frozen at the submit.
  */
  lemma LedgerFromEmpty(before: seq<Action>, run: Id, after: seq<Action>)
    requires Submit(Perform(EMPTY, before), run).error.None?
    requires Admissible(Submit(Perform(EMPTY, before), run).db, after, run)
    ensures var db := Perform(EMPTY, before);
      Ledger(Perform(EMPTY, before + [DoSubmit(run)] + after), db.nextId, ResolvedScope(db, run))
  {
    hide Inv, Ledger, Submit, Admissible, ResolvedScope;
    var db := Perform(EMPTY, before);
    ReachableFromEmpty(before);
    SubmitOpensLedger(db, run);
    SubmitWrites(db, run);
    SubmitKeeps(db, run);
    LedgerOverRuns(Submit(db, run).db, after, db.nextId, ResolvedScope(db, run));
    PerformAround(EMPTY, before, DoSubmit(run), after);
    hide Perform;
    assert Step(db, DoSubmit(run)) == Submit(db, run);
  }

  lemma PerformAround(db: Db, before: seq<Action>, a: Action, after: seq<Action>)
    ensures Perform(db, before + [a] + after) == Perform(Step(Perform(db, before), a).db, after)
  {
    hide Step;
    var all, rest := before + [a] + after, [a] + after;
    PerformSplit(db, all, |before|);
    assert all[..|before|] == before && all[|before|..] == rest && rest[1..] == after;
  }

  // --- what the bulk condition buys --------------------------------------------------------------

  /** Naming another run, a bulk action can empty an issue of a frozen scope: it checks only the named run. */
  lemma ForeignBulkShrinksScope(db: Db, r: Id, scope: set<Id>, q: Id, i: Id)
    requires Ledger(db, r, scope) && i in scope && q in db.runs && db.runs[q] != ReadyForApproval
    ensures Bulk(db, q, [i], true).error.None?
    ensures i !in ResolvedScope(Bulk(db, q, [i], true).db, db.requests[r].run)
    ensures !Ledger(Bulk(db, q, [i], true).db, r, scope)
  {
    hide DecisionsPartition, LedgerStatus;
    BulkErrorNone(db, [i]);
    BulkApplyFrame(db, [i], true);
    assert BulkDecided(BulkApply(db, [i], true), i, true);
  }

  /** A run of six accepted steps: request 3 is submitted for review run 0, then a bulk action names the new run 4. */
  function ForeignBulkRun(): seq<Action> {
    [DoCreate(Some(true), ["a"]), DoGenerate(0, []), DoCorrect(1, "x"), DoSubmit(0),
     DoCreate(Some(true), []), DoBulk(4, [1], true)]
  }

  /** Run 0 under review with issue 1, corrected or not. */
  function OneIssue(corrected: bool): Db {
    Db(map[0 := InReview], map[1 := Issue(0, "a", if corrected then IssueResolved else IssuePending)], map[],
       if corrected then map[1 := Correction(2, None, Some("x"), Some(Human), Edited)] else map[], map[], [],
       if corrected then [Edge(1, 2)] else [], if corrected then 3 else 2)
  }

  lemma PerformTwo(db: Db, a: Action, b: Action)
    ensures Perform(db, [a, b]) == Step(Step(db, a).db, b).db
  {
    hide Step;
    assert [a, b][1..] == [b] && [b][1..] == [];
    assert Perform(Step(db, a).db, [b]) == Step(Step(db, a).db, b).db;
  }

  function OneCreated(): Db {
    Db(map[0 := DraftRun], map[1 := Issue(0, "a", IssuePending)], map[], map[], map[], [], [], 2)
  }

  lemma OneIssueIsCreated()
    ensures Step(EMPTY, DoCreate(Some(true), ["a"])) == Done(OneCreated())
  {
    var begun := EMPTY.(runs := map[0 := DraftRun], nextId := 1);
    assert ["a"][1..] == [];
    assert AddIssues(begun, 0, ["a"]) == OneCreated();
  }

  lemma OneIssueIsGenerated()
    ensures Step(OneCreated(), DoGenerate(0, [])) == Done(OneIssue(false))
  {
  }

  lemma OneIssueIsCorrected()
    ensures Step(OneIssue(false), DoCorrect(1, "x")) == Done(OneIssue(true))
  {
    NotBlank();
    hide IsBlank;
  }

  lemma OneIssueIsReached()
    ensures Perform(EMPTY, [DoCreate(Some(true), ["a"]), DoGenerate(0, [])]) == OneIssue(false)
  {
    OneIssueIsCreated();
    OneIssueIsGenerated();
    hide Step, OneCreated, OneIssue;
    PerformTwo(EMPTY, DoCreate(Some(true), ["a"]), DoGenerate(0, []));
  }

  /** The same, submitted as request 3, and with a second run 4. */
  function FrozenBesideRun4(): Db {
    OneIssue(true).(runs := map[0 := ReadyForApproval, 4 := DraftRun],
                    requests := map[3 := Request(0, Pending, 1, 1, false)], nextId := 5)
  }

  lemma FrozenIsReached()
    ensures Step(Step(OneIssue(true), DoSubmit(0)).db, DoCreate(Some(true), [])) == Done(FrozenBesideRun4())
  {
    var db := OneIssue(true);
    assert OpenRequests(db, 0) == {} && ResolvedScope(db, 0) == {1};
    OneRecord(db, {1}, 1);
    hide OpenRequests, ResolvedScope, RecordCount;
  }

  lemma OneRecord(db: Db, scope: set<Id>, i: Id)
    requires scope == {i} && i in db.issues
    ensures RecordCount(db, scope) == 1
  {
    var refs := set k | k in scope :: db.issues[k].recordRef;
    assert db.issues[i].recordRef in refs && refs == {db.issues[i].recordRef};
  }

  lemma FrozenLedger()
    ensures Ledger(FrozenBesideRun4(), 3, {1})
  {
    assert ResolvedScope(FrozenBesideRun4(), 0) == {1};
  }

  lemma ForeignBulkPrefix()
    ensures Perform(EMPTY, ForeignBulkRun()[..5]) == FrozenBesideRun4()
    ensures Perform(EMPTY, ForeignBulkRun()) == Bulk(FrozenBesideRun4(), 4, [1], true).db
  {
    OneIssueIsReached();
    OneIssueIsCorrected();
    FrozenIsReached();
    hide Step, OneIssue, FrozenBesideRun4, Bulk;
    var actions := ForeignBulkRun();
    var tail: seq<Action> := [DoCorrect(1, "x"), DoSubmit(0), DoCreate(Some(true), [])];
    assert actions[..5][..2] == [DoCreate(Some(true), ["a"]), DoGenerate(0, [])] && actions[..5][2..] == tail;
    PerformSplit(EMPTY, actions[..5], 2);
    assert tail[1..] == [DoSubmit(0), DoCreate(Some(true), [])] && tail[1..][1..] == [DoCreate(Some(true), [])];
    assert tail[1..][1..][1..] == [];
    assert actions[5..] == [DoBulk(4, [1], true)] && actions[5..][1..] == [];
    PerformSplit(EMPTY, actions, 5);
    assert Perform(FrozenBesideRun4(), actions[5..]) == Step(FrozenBesideRun4(), DoBulk(4, [1], true)).db;
    BulkIsAStep(FrozenBesideRun4());
  }

  lemma BulkIsAStep(db: Db)
    ensures Step(db, DoBulk(4, [1], true)) == Bulk(db, 4, [1], true)
  {
    hide Bulk;
  }

  /** The exception is reachable: from empty tables the frozen scope of request 3 is emptied through another run. */
  lemma ForeignBulkIsReachable()
    ensures var db := Perform(EMPTY, ForeignBulkRun()[..5]);
      && Ledger(db, 3, {1}) && Bulk(db, 4, [1], true).error.None?
      && Perform(EMPTY, ForeignBulkRun()) == Bulk(db, 4, [1], true).db
      && !Ledger(Perform(EMPTY, ForeignBulkRun()), 3, {1})
  {
    ForeignBulkPrefix();
    FrozenLedger();
    assert 4 in FrozenBesideRun4().runs && FrozenBesideRun4().runs[4] == DraftRun;
    hide Ledger, Perform, Bulk, FrozenBesideRun4;
    ForeignBulkShrinksScope(FrozenBesideRun4(), 3, {1}, 4, 1);
  }

  /** A successful bulk action keeps a frozen scope exactly when it lists none of its issues. */
  lemma BulkKeepsScopeIff(db: Db, run: Id, issues: seq<Id>, skip: bool, frozen: Id)
    requires Bulk(db, run, issues, skip).error.None?
    ensures ResolvedScope(Bulk(db, run, issues, skip).db, frozen) == ResolvedScope(db, frozen)
       <==> forall i :: i in issues ==> i !in ResolvedScope(db, frozen)
  {
    BulkErrorNone(db, issues);
    hide BulkApply, BulkError;
    BulkApplyFrame(db, issues, skip);
    var after := BulkApply(db, issues, skip);
    forall i: Id ensures IsResolvedIn(after, frozen, i) <==> IsResolvedIn(db, frozen, i) && i !in issues {
      if i in issues { assert BulkDecided(after, i, skip); } else { assert SameIssue(db, after, i); }
    }
  }

  // --- one open request per run, and how it fails ---------------------------------------------------

  ghost predicate AtMostOneOpen(db: Db) {
    forall p, q | p in db.requests && q in db.requests
                  && IsOpen(db.requests[p].status) && IsOpen(db.requests[q].status) ::
      db.requests[p].run == db.requests[q].run ==> p == q
  }

  ghost predicate HasOtherOpen(db: Db, r: Id)
    requires r in db.requests
  {
    exists q :: q in db.requests && q != r && IsOpen(db.requests[q].status) && db.requests[q].run == db.requests[r].run
  }

  /**
    `decide` does not look at the request's status, so a closed request can be reopened. A decision keeps at
    most one open request per run exactly when the request was open, or nothing remains, or no other is open.
  */
  lemma DecideKeepsOneOpenIff(db: Db, r: Id, verdict: Verdict, issues: seq<Id>)
    requires AtMostOneOpen(db) && Decide(db, r, verdict, issues).error.None?
    ensures AtMostOneOpen(Decide(db, r, verdict, issues).db)
       <==> IsOpen(db.requests[r].status) || ToIds(issues) == Remaining(db, r) || !HasOtherOpen(db, r)
  {
    hide ToIds, ResolvedScope, Decided, Remaining;
    var after := Decide(db, r, verdict, issues).db;
    EmptyDifference(Remaining(db, r), ToIds(issues));
    assert IsOpen(after.requests[r].status) <==> ToIds(issues) != Remaining(db, r);
    if HasOtherOpen(db, r) && IsOpen(after.requests[r].status) {
      var q :| q in db.requests && q != r && IsOpen(db.requests[q].status) && db.requests[q].run == db.requests[r].run;
      assert after.requests[q] == db.requests[q];
    }
  }

  /** Every other step keeps at most one open request per run: a submit refuses a run that already has one. */
  lemma OtherStepsKeepOneOpen(db: Db, a: Action)
    requires Inv(db) && AtMostOneOpen(db) && !a.DoDecide?
    ensures AtMostOneOpen(Step(db, a).db)
  {
    if a.DoSubmit? {
      SubmitKeepsOneOpen(db, a.run);
    } else {
      OtherStepsLeaveRequests(db, a);
    }
    hide Step, Inv;
  }

  lemma SubmitKeepsOneOpen(db: Db, run: Id)
    requires Inv(db) && AtMostOneOpen(db)
    ensures AtMostOneOpen(Step(db, DoSubmit(run)).db)
  {
    assert db.nextId !in db.requests;
    hide Inv, ResolvedScope, RecordCount;
    var after := Step(db, DoSubmit(run)).db;
    if after != db {
      forall q | q in db.requests && IsOpen(db.requests[q].status) ensures db.requests[q].run != run {
        assert db.requests[q].run == run ==> q in OpenRequests(db, run);
      }
    }
  }

  lemma OtherStepsLeaveRequests(db: Db, a: Action)
    requires Inv(db) && !a.DoDecide? && !a.DoSubmit?
    ensures Step(db, a).db.requests == db.requests
  {
    hide Inv, AddIssues, AddDrafts, BulkApply, BulkError, Targets, OpenRequests, IsBlank, Select;
    match a
    case DoCreate(_, refs) =>
      AddIssuesFrame(db.(runs := db.runs[db.nextId := DraftRun], nextId := db.nextId + 1), db.nextId, refs);
    case DoGenerate(run, drafts) =>
      if run in db.runs {
        var begun := if db.runs[run] == DraftRun then db.(runs := db.runs[run := InReview]) else db;
        AddDraftsFrame(begun, Targets(db, run), drafts);
      }
    case DoBulk(run, issues, skip) =>
      if Bulk(db, run, issues, skip).error.None? {
        BulkErrorNone(db, issues);
        BulkApplyFrame(db, issues, skip);
      }
    case _ =>
  }

  /** The condition of the lemma above, for a step that is an accepted decision. */
  ghost predicate DecidesInPlace(db: Db, a: Action) {
    match a
    case DoDecide(r, verdict, issues) =>
      Decide(db, r, verdict, issues).error.None? ==>
        IsOpen(db.requests[r].status) || ToIds(issues) == Remaining(db, r) || !HasOtherOpen(db, r)
    case _ => true
  }

  ghost predicate OneOpenThroughout(db: Db, actions: seq<Action>) {
    forall k :: 0 <= k <= |actions| ==> AtMostOneOpen(Perform(db, actions[..k]))
  }

  ghost predicate DecidesInPlaceThroughout(db: Db, actions: seq<Action>) {
    forall k :: 0 <= k < |actions| ==> DecidesInPlace(Perform(db, actions[..k]), actions[k])
  }

  lemma StepKeepsOneOpenIff(db: Db, a: Action)
    requires Inv(db) && AtMostOneOpen(db)
    ensures AtMostOneOpen(Step(db, a).db) <==> DecidesInPlace(db, a)
  {
    hide Inv, AtMostOneOpen, Decide, HasOtherOpen, ToIds, Remaining;
    match a
    case DoDecide(r, verdict, issues) =>
      if Decide(db, r, verdict, issues).error.None? {
        DecideKeepsOneOpenIff(db, r, verdict, issues);
      } else {
        RefusedStepsChangeNothing(db, a);
      }
    case _ => OtherStepsKeepOneOpen(db, a);
  }

  lemma PerformNext(db: Db, actions: seq<Action>, k: nat)
    requires k < |actions|
    ensures Perform(db, actions[..k + 1]) == Step(Perform(db, actions[..k]), actions[k]).db
  {
    hide Step;
    PerformSplit(db, actions[..k + 1], k);
    var last := actions[..k + 1][k..];
    assert actions[..k + 1][..k] == actions[..k] && last == [actions[k]] && last[1..] == [];
    assert Perform(Perform(db, actions[..k]), last) == Step(Perform(db, actions[..k]), actions[k]).db;
  }

  lemma PrefixKeepsOneOpenIff(db: Db, actions: seq<Action>, k: nat)
    requires Inv(db) && k < |actions| && AtMostOneOpen(Perform(db, actions[..k]))
    ensures AtMostOneOpen(Perform(db, actions[..k + 1])) <==> DecidesInPlace(Perform(db, actions[..k]), actions[k])
  {
    hide *;
    ReachableInv(db, actions[..k]);
    PerformNext(db, actions, k);
    StepKeepsOneOpenIff(Perform(db, actions[..k]), actions[k]);
  }

  lemma {:induction false} PrefixHasOneOpen(db: Db, actions: seq<Action>, k: nat)
    requires Inv(db) && AtMostOneOpen(db) && DecidesInPlaceThroughout(db, actions) && k <= |actions|
    ensures AtMostOneOpen(Perform(db, actions[..k]))
  {
    hide Inv, AtMostOneOpen, DecidesInPlace, Step;
    if k > 0 {
      PrefixHasOneOpen(db, actions, k - 1);
      PrefixKeepsOneOpenIff(db, actions, k - 1);
    }
  }

  /**
    Over a whole history no run ever has two open requests exactly when every accepted decision meets the condition.
  */
  lemma OneOpenThroughoutIff(db: Db, actions: seq<Action>)
    requires Inv(db) && AtMostOneOpen(db)
    ensures OneOpenThroughout(db, actions) <==> DecidesInPlaceThroughout(db, actions)
  {
    hide Inv, AtMostOneOpen, DecidesInPlace, Perform, Step;
    if OneOpenThroughout(db, actions) {
      forall k | 0 <= k < |actions| ensures DecidesInPlace(Perform(db, actions[..k]), actions[k]) {
        PrefixKeepsOneOpenIff(db, actions, k);
      }
    }
    if DecidesInPlaceThroughout(db, actions) {
      forall k | 0 <= k <= |actions| ensures AtMostOneOpen(Perform(db, actions[..k])) {
        PrefixHasOneOpen(db, actions, k);
      }
    }
  }

  /** From empty tables. */
  lemma OneOpenFromEmptyIff(actions: seq<Action>)
    ensures OneOpenThroughout(EMPTY, actions) <==> DecidesInPlaceThroughout(EMPTY, actions)
  {
    EmptyInv();
    OneOpenThroughoutIff(EMPTY, actions);
  }

  /** With at most one open request per run, neither read of it finds two rows. */
  lemma OneOpenIsReadable(db: Db, run: Id)
    requires AtMostOneOpen(db)
    ensures |OpenRequests(db, run)| <= 1
    ensures Submit(db, run).error != Some(MultipleRows) && Archive(db, run).error != Some(MultipleRows)
  {
    var open := OpenRequests(db, run);
    if open != {} {
      var p :| p in open;
      forall q | q in open ensures q == p { }
      assert open == {p};
    }
    hide AtMostOneOpen, OpenRequests, ResolvedScope, RecordCount;
  }

  /** Two open requests on one run: neither a submit nor an archive of that run can succeed any more. */
  lemma TwoOpenRequestsBlockTheRun(db: Db, p: Id, q: Id)
    requires p in db.requests && q in db.requests && p != q && db.requests[p].run == db.requests[q].run
    requires IsOpen(db.requests[p].status) && IsOpen(db.requests[q].status)
    ensures Submit(db, db.requests[p].run).error.Some? && Archive(db, db.requests[p].run).error.Some?
  {
    assert p in OpenRequests(db, db.requests[p].run);
  }

  /** A run of eleven accepted steps that ends with two open requests on one review run. */
  function ReopeningRun(): seq<Action> {
    [DoCreate(Some(true), ["a", "b", "c"]), DoGenerate(0, []), DoCorrect(1, "x"), DoSubmit(0),
     DoDecide(5, Approve, [1]), DoArchive(0), DoRestore(0), DoCorrect(2, "y"), DoCorrect(3, "z"), DoSubmit(0),
     DoDecide(5, Approve, [2])]
  }

  /** Run 0 in some status, with issues 1 to 3, of which these are corrected. */
  ghost predicate Stage(db: Db, status: RunStatus, corrected: set<Id>, next: Id) {
    && 0 in db.runs && db.runs[0] == status && db.nextId == next
    && db.issues.Keys == {1, 2, 3} && (forall i :: i in db.issues ==> db.issues[i].run == 0)
    && db.corrections.Keys == corrected
    && forall i :: i in corrected ==> db.corrections[i].status == Edited && db.corrections[i].finalValue.Some?
  }

  lemma StageScope(db: Db, status: RunStatus, corrected: set<Id>, next: Id)
    requires Stage(db, status, corrected, next) && corrected <= {1, 2, 3}
    ensures ResolvedScope(db, 0) == corrected
  {
  }

  function ThreeCreated(): Db {
    Db(map[0 := DraftRun],
       map[1 := Issue(0, "a", IssuePending), 2 := Issue(0, "b", IssuePending), 3 := Issue(0, "c", IssuePending)],
       map[], map[], map[], [], [], 4)
  }

  lemma ThreeAreCreated()
    ensures Step(EMPTY, DoCreate(Some(true), ["a", "b", "c"])) == Done(ThreeCreated())
  {
    var begun := EMPTY.(runs := map[0 := DraftRun], nextId := 1);
    var one := begun.(issues := map[1 := Issue(0, "a", IssuePending)], nextId := 2);
    var two := one.(issues := one.issues[2 := Issue(0, "b", IssuePending)], nextId := 3);
    assert ["a", "b", "c"][1..] == ["b", "c"] && ["b", "c"][1..] == ["c"] && ["c"][1..] == [];
    assert AddIssues(two, 0, ["c"]) == ThreeCreated();
    assert AddIssues(one, 0, ["b", "c"]) == ThreeCreated();
    assert AddIssues(begun, 0, ["a", "b", "c"]) == ThreeCreated();
  }

  lemma ThreeAreGenerated()
    ensures var r := Step(ThreeCreated(), DoGenerate(0, [])).db;
      Stage(r, InReview, {}, 4) && r.requests == map[] && r.decisions == []
  {
    hide Targets;
  }

  lemma StartStage()
    ensures var r := Perform(EMPTY, [DoCreate(Some(true), ["a", "b", "c"]), DoGenerate(0, [])]);
      Stage(r, InReview, {}, 4) && r.requests == map[] && r.decisions == []
  {
    ThreeAreCreated();
    ThreeAreGenerated();
    hide Step, ThreeCreated, Stage, Perform;
    PerformTwo(EMPTY, DoCreate(Some(true), ["a", "b", "c"]), DoGenerate(0, []));
  }

  lemma CorrectStage(db: Db, status: RunStatus, corrected: set<Id>, next: Id, i: Id, value: string)
    requires Stage(db, status, corrected, next) && status != ReadyForApproval && i in {1, 2, 3} - corrected
    requires !IsBlank(value)
    ensures var r := Step(db, DoCorrect(i, value)).db;
      Stage(r, status, corrected + {i}, next + 1) && r.requests == db.requests && r.decisions == db.decisions
  {
  }

  lemma SubmitStage(db: Db, corrected: set<Id>, next: Id)
    requires Stage(db, InReview, corrected, next) && corrected != {} && corrected <= {1, 2, 3}
    requires forall r :: r in db.requests ==> !IsOpen(db.requests[r].status)
    ensures var r := Step(db, DoSubmit(0)).db;
      && Stage(r, ReadyForApproval, corrected, next + 1) && r.decisions == db.decisions
      && r.requests.Keys == db.requests.Keys + {next}
      && r.requests[next].run == 0 && r.requests[next].status == Pending
      && forall q :: q in db.requests && q != next ==> r.requests[q] == db.requests[q]
  {
    StageScope(db, InReview, corrected, next);
    hide RecordCount, ResolvedScope;
    assert OpenRequests(db, 0) == {};
  }

  lemma DecideStage(db: Db, status: RunStatus, corrected: set<Id>, next: Id, r: Id, i: Id)
    requires Stage(db, status, corrected, next) && corrected <= {1, 2, 3}
    requires r in db.requests && db.requests[r].run == 0 && i in corrected && i !in Decided(db.decisions, r)
    requires forall d :: d in db.decisions ==> d.verdict == Approve
    ensures var after := Step(db, DoDecide(r, Approve, [i])).db;
      && Stage(after, status, corrected, next)
      && after.decisions == db.decisions + [Decision(r, Approve, {i})]
      && after.requests.Keys == db.requests.Keys
      && after.requests[r].run == 0
      && after.requests[r].status
        == (if corrected - Decided(db.decisions, r) == {i} then Approved else PartiallyApproved)
      && forall q :: q in db.requests && q != r ==> after.requests[q] == db.requests[q]
  {
    StageScope(db, status, corrected, next);
    hide ResolvedScope, Decided;
    assert ToIds([i]) == {i};
    EmptyDifference(corrected - Decided(db.decisions, r), {i});
  }

  /** The exception is reachable: the closed request 5 is reopened while request 8 is open on the same run. */
  lemma ClosedRequestCanReopen()
    ensures var db := Perform(EMPTY, ReopeningRun());
      5 in db.requests && 8 in db.requests && db.requests[5].run == db.requests[8].run == 0
      && IsOpen(db.requests[5].status) && IsOpen(db.requests[8].status)
  {
    hide Step, Stage;
    StartStage();
    var s2 := Perform(EMPTY, ReopeningRun()[..2]);
    assert ReopeningRun()[..2] == [DoCreate(Some(true), ["a", "b", "c"]), DoGenerate(0, [])];
    FirstRound(s2);
    var s5 := Step(Step(Step(s2, DoCorrect(1, "x")).db, DoSubmit(0)).db, DoDecide(5, Approve, [1])).db;
    SecondRound(Step(Step(s5, DoArchive(0)).db, DoRestore(0)).db);
    PerformTail(s2);
    PerformSplit(EMPTY, ReopeningRun(), 2);
  }

  /** The first request is submitted, fully approved, and its run archived and restored. */
  lemma FirstRound(s2: Db)
    requires Stage(s2, InReview, {}, 4) && s2.requests == map[] && s2.decisions == []
    ensures var s5 := Step(Step(Step(s2, DoCorrect(1, "x")).db, DoSubmit(0)).db, DoDecide(5, Approve, [1])).db;
      var s7 := Step(Step(s5, DoArchive(0)).db, DoRestore(0)).db;
      && Stage(s7, InReview, {1}, 6) && s7.decisions == [Decision(5, Approve, {1})]
      && s7.requests.Keys == {5} && s7.requests[5].run == 0 && s7.requests[5].status == Approved
  {
    hide Step, Stage, IsBlank;
    NotBlank();
    CorrectStage(s2, InReview, {}, 4, 1, "x");
    var s3 := Step(s2, DoCorrect(1, "x")).db;
    var none: set<Id> := {};
    assert none + {1} == {1};
    SubmitStage(s3, {1}, 5);
    var s4 := Step(s3, DoSubmit(0)).db;
    DecideStage(s4, ReadyForApproval, {1}, 6, 5, 1);
    ArchiveAndRestore(Step(s4, DoDecide(5, Approve, [1])).db, {1}, 6);
  }

  /** More issues are corrected and submitted, then the first request is decided again. */
  lemma SecondRound(s7: Db)
    requires Stage(s7, InReview, {1}, 6) && s7.decisions == [Decision(5, Approve, {1})]
    requires s7.requests.Keys == {5} && s7.requests[5].run == 0 && s7.requests[5].status == Approved
    ensures var s9 := Step(Step(s7, DoCorrect(2, "y")).db, DoCorrect(3, "z")).db;
      var s11 := Step(Step(s9, DoSubmit(0)).db, DoDecide(5, Approve, [2])).db;
      && 5 in s11.requests && 8 in s11.requests && s11.requests[5].run == s11.requests[8].run == 0
      && IsOpen(s11.requests[5].status) && IsOpen(s11.requests[8].status)
  {
    hide Step, Stage, IsBlank;
    NotBlank();
    CorrectStage(s7, InReview, {1}, 6, 2, "y");
    var s8 := Step(s7, DoCorrect(2, "y")).db;
    CorrectStage(s8, InReview, {1, 2}, 7, 3, "z");
    var s9 := Step(s8, DoCorrect(3, "z")).db;
    assert {1, 2} + {3} == {1, 2, 3} && {1} + {2} == {1, 2};
    SubmitStage(s9, {1, 2, 3}, 8);
    var s10 := Step(s9, DoSubmit(0)).db;
    assert Decided(s10.decisions, 5) == {1} by { assert s10.decisions[1..] == []; }
    DecideStage(s10, ReadyForApproval, {1, 2, 3}, 9, 5, 2);
    assert {1, 2, 3} - {1} != {2} by { assert 3 in {1, 2, 3} - {1}; }
  }

  lemma NotBlank()
    ensures !IsBlank("x") && !IsBlank("y") && !IsBlank("z")
  {
    StripIdentity("x");
    StripIdentity("y");
    StripIdentity("z");
  }

  lemma ArchiveAndRestore(db: Db, corrected: set<Id>, next: Id)
    requires Stage(db, ReadyForApproval, corrected, next)
    requires forall r :: r in db.requests ==> !IsOpen(db.requests[r].status)
    ensures var after := Step(Step(db, DoArchive(0)).db, DoRestore(0)).db;
      Stage(after, InReview, corrected, next) && after.requests == db.requests && after.decisions == db.decisions
  {
    assert OpenRequests(db, 0) == {};
  }

  lemma {:induction false} PerformSplit(db: Db, actions: seq<Action>, k: nat)
    requires k <= |actions|
    ensures Perform(db, actions) == Perform(Perform(db, actions[..k]), actions[k..])
    decreases k
  {
    hide Step;
    if k > 0 {
      PerformSplit(Step(db, actions[0]).db, actions[1..], k - 1);
      assert actions[..k][1..] == actions[1..][..k - 1] && actions[1..][k - 1..] == actions[k..];
    } else {
      assert actions[0..] == actions;
    }
  }

  /** The last nine steps, one after the other. */
  lemma PerformTail(s2: Db)
    ensures var s5 := Step(Step(Step(s2, DoCorrect(1, "x")).db, DoSubmit(0)).db, DoDecide(5, Approve, [1])).db;
      var s8 := Step(Step(Step(s5, DoArchive(0)).db, DoRestore(0)).db, DoCorrect(2, "y")).db;
      Perform(s2, ReopeningRun()[2..])
        == Step(Step(Step(s8, DoCorrect(3, "z")).db, DoSubmit(0)).db, DoDecide(5, Approve, [2])).db
  {
    hide Step;
    var t := ReopeningRun()[2..];
    assert t == [DoCorrect(1, "x"), DoSubmit(0), DoDecide(5, Approve, [1]), DoArchive(0), DoRestore(0),
                 DoCorrect(2, "y"), DoCorrect(3, "z"), DoSubmit(0), DoDecide(5, Approve, [2])];
    forall db, k | 0 <= k < 9 ensures Perform(db, t[k..]) == Perform(Step(db, t[k]).db, t[k + 1..]) {
      assert t[k..][1..] == t[k + 1..];
    }
    var s3 := Step(s2, t[0]).db;
    var s4 := Step(s3, t[1]).db;
    var s5 := Step(s4, t[2]).db;
    var s6 := Step(s5, t[3]).db;
    var s7 := Step(s6, t[4]).db;
    var s8 := Step(s7, t[5]).db;
    var s9 := Step(s8, t[6]).db;
    var s10 := Step(s9, t[7]).db;
    assert t[0..] == t;
    assert Perform(s2, t[0..]) == Perform(s5, t[3..]);
    assert Perform(s5, t[3..]) == Perform(s8, t[6..]);
    assert Perform(s8, t[6..]) == Perform(Step(s10, t[8]).db, t[9..]);
    assert t[9..] == [];
  }
}
