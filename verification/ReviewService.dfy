/** The services that write the review tables: each method is one transaction, and follows its protocol step. */
module ReviewService {
  import opened Collections
  import opened ReviewProtocol
  import opened ReviewInvariants

  class ReviewDatabase {
    var runs: map<Id, RunStatus>
    var issues: map<Id, Issue>
    var suggestions: map<Id, Suggestion>
    var corrections: map<Id, Correction>
    var requests: map<Id, Request>
    var decisions: seq<Decision>
    var edges: seq<Edge>
    var nextId: Id

    /** The tables as one value. */
    ghost function Tables(): Db
      reads this
    {
      Db(runs, issues, suggestions, corrections, requests, decisions, edges, nextId)
    }

    constructor ()
      ensures Tables() == EMPTY && Inv(Tables())
    {
      runs, issues, suggestions, corrections, requests := map[], map[], map[], map[], map[];
      decisions, edges, nextId := [], [], 0;
    }

    // --- review runs ---------------------------------------------------------------------

    method CreateFromValidationRun(completed: Option<bool>, refs: seq<string>) returns (error: Option<Error>)
      requires Inv(Tables())
      modifies this
      ensures Outcome(Tables(), error) == CreateRun(old(Tables()), completed, refs) && Inv(Tables())
    {
      hide Inv;
      CreateKeeps(Tables(), completed, refs);
      if completed.None? { return Some(NotFound); }
      if !completed.value { return Some(Incomplete); }
      var run := nextId;
      runs, nextId := runs[run := DraftRun], nextId + 1;
      for k := 0 to |refs|
        invariant AddIssues(Tables(), run, refs[k..])
               == AddIssues(old(Tables()).(runs := old(runs)[run := DraftRun], nextId := run + 1), run, refs)
      {
        assert refs[k..][1..] == refs[k + 1..];
        issues, nextId := issues[nextId := Issue(run, refs[k], IssuePending)], nextId + 1;
      }
      error := None;
    }

    method GenerateSuggestions(run: Id, drafts: seq<Draft>) returns (error: Option<Error>)
      requires Inv(Tables())
      modifies this
      ensures Outcome(Tables(), error) == Generate(old(Tables()), run, drafts) && Inv(Tables())
    {
      hide Inv;
      GenerateKeeps(Tables(), run, drafts);
      if run !in runs { return Some(NotFound); }
      var targets := set i | i in issues && issues[i].run == run && issues[i].status == IssuePending
                          && forall s :: s in suggestions ==> suggestions[s].issue != i;
      assert targets == Targets(Tables(), run);
      if runs[run] == DraftRun { runs := runs[run := InReview]; }
      hide Targets;
      ghost var begun := Tables();
      for k := 0 to |drafts|
        invariant AddDrafts(Tables(), targets, drafts[k..]) == AddDrafts(begun, targets, drafts)
      {
        assert drafts[k..][1..] == drafts[k + 1..];
        var d := drafts[k];
        if d.issue in targets {
          suggestions, nextId := suggestions[nextId := Suggestion(d.issue, d.value, d.origin, false)], nextId + 1;
        }
      }
      error := None;
    }

    // --- correction decisions ---------------------------------------------------------------

    method UpsertCorrection(issue: Id, suggestion: Option<Id>, finalValue: Option<string>,
                            origin: Option<Origin>, status: CorrectionStatus)
      modifies `corrections, `edges, `nextId
      ensures Tables() == Upsert(old(Tables()), issue, suggestion, finalValue, origin, status)
    {
      if issue !in corrections {
        corrections := corrections[issue := Correction(nextId, suggestion, finalValue, origin, status)];
        edges := edges + [Edge(issue, nextId)];
        nextId := nextId + 1;
      } else {
        corrections := corrections[issue := Correction(corrections[issue].id, suggestion, finalValue, origin, status)];
      }
    }

    /** The correction is written, then the issue's status. */
    method Settle(issue: Id, suggestion: Option<Id>, finalValue: Option<string>, origin: Option<Origin>,
                  status: CorrectionStatus, outcome: IssueStatus)
      requires issue in issues
      modifies `corrections, `edges, `nextId, `issues
      ensures Tables() == SetStatus(Upsert(old(Tables()), issue, suggestion, finalValue, origin, status), issue,
                                    outcome)
    {
      UpsertFrame(Tables(), issue, suggestion, finalValue, origin, status);
      hide Upsert;
      UpsertCorrection(issue, suggestion, finalValue, origin, status);
      issues := issues[issue := issues[issue].(status := outcome)];
    }

    /** Deselects the issue's other suggestions one by one, then selects the chosen one. */
    method SelectOnly(issue: Id, chosen: Id)
      requires chosen in suggestions
      modifies `suggestions
      ensures suggestions == Select(old(suggestions), issue, chosen)
    {
      var others := set s | s in suggestions && suggestions[s].issue == issue && s != chosen;
      var rest := others;
      while rest != {}
        invariant rest <= others && suggestions.Keys == old(suggestions).Keys
        invariant forall s :: s in suggestions ==>
          suggestions[s] == if s in others - rest then old(suggestions)[s].(selected := false) else old(suggestions)[s]
      {
        var s :| s in rest;
        suggestions := suggestions[s := suggestions[s].(selected := false)];
        rest := rest - {s};
      }
      suggestions := suggestions[chosen := suggestions[chosen].(selected := true)];
    }

    /** The guards shared by every single decision, read in the source's order. */
    method CheckDecidable(issue: Id) returns (error: Option<Error>)
      requires issue in issues
      ensures error == Guard(Tables(), issue)
    {
      var run := issues[issue].run;
      if run in runs && runs[run] == ReadyForApproval { return Some(WrongStatus); }
      if issue in corrections && IsTerminal(corrections[issue].status) { return Some(AlreadyDecided); }
      error := None;
    }

    /** Records the chosen suggestion as its issue's correction. */
    method Choose(suggestion: Id, value: string, origin: Origin, status: CorrectionStatus)
      requires suggestion in suggestions && suggestions[suggestion].issue in issues
      modifies this
      ensures var db, issue := old(Tables()), old(suggestions)[suggestion].issue;
        var r := Upsert(db, issue, Some(suggestion), Some(value), Some(origin), status);
        Tables() == SetStatus(r.(suggestions := Select(r.suggestions, issue, suggestion)), issue, IssueResolved)
    {
      var issue := suggestions[suggestion].issue;
      UpsertFrame(Tables(), issue, Some(suggestion), Some(value), Some(origin), status);
      hide Select, Upsert;
      UpsertCorrection(issue, Some(suggestion), Some(value), Some(origin), status);
      SelectOnly(issue, suggestion);
      issues := issues[issue := issues[issue].(status := IssueResolved)];
    }

    method AcceptSuggestion(suggestion: Id) returns (error: Option<Error>)
      requires Inv(Tables())
      modifies this
      ensures Outcome(Tables(), error) == Accept(old(Tables()), suggestion) && Inv(Tables())
    {
      AcceptKeeps(Tables(), suggestion);
      hide Inv, Select, Upsert, IsBlank, Guard, SetStatus;
      if suggestion !in suggestions || suggestions[suggestion].issue !in issues { return Some(NotFound); }
      var s := suggestions[suggestion];
      error := CheckDecidable(s.issue);
      if error.Some? { return; }
      if IsBlank(s.value) { return Some(EmptyValue); }
      Choose(suggestion, s.value, s.origin, Accepted);
    }

    method EditSuggestion(suggestion: Id, value: string) returns (error: Option<Error>)
      requires Inv(Tables())
      modifies this
      ensures Outcome(Tables(), error) == Edit(old(Tables()), suggestion, value) && Inv(Tables())
    {
      EditKeeps(Tables(), suggestion, value);
      hide Inv, Select, Upsert, IsBlank, Guard, SetStatus;
      if suggestion !in suggestions || suggestions[suggestion].issue !in issues { return Some(NotFound); }
      var s := suggestions[suggestion];
      error := CheckDecidable(s.issue);
      if error.Some? { return; }
      if IsBlank(value) { return Some(EmptyValue); }
      Choose(suggestion, value, Human, Edited);
    }

    method RejectSuggestion(suggestion: Id) returns (error: Option<Error>)
      requires Inv(Tables())
      modifies this
      ensures Outcome(Tables(), error) == Reject(old(Tables()), suggestion) && Inv(Tables())
    {
      RejectKeeps(Tables(), suggestion);
      hide Inv, Upsert, Guard, SetStatus;
      if suggestion !in suggestions || suggestions[suggestion].issue !in issues { return Some(NotFound); }
      var s := suggestions[suggestion];
      error := CheckDecidable(s.issue);
      if error.Some? { return; }
      Settle(s.issue, Some(suggestion), None, Some(s.origin), Rejected, IssueResolved);
    }

    method SkipIssue(issue: Id) returns (error: Option<Error>)
      requires Inv(Tables())
      modifies this
      ensures Outcome(Tables(), error) == Skip(old(Tables()), issue) && Inv(Tables())
    {
      SkipKeeps(Tables(), issue);
      hide Inv, Upsert, Guard, SetStatus, IsBlank;
      if issue !in issues { return Some(NotFound); }
      error := CheckDecidable(issue);
      if error.Some? { return; }
      Settle(issue, None, None, None, Skipped, IssueSkipped);
    }

    method CorrectIssueDirectly(issue: Id, value: string) returns (error: Option<Error>)
      requires Inv(Tables())
      modifies this
      ensures Outcome(Tables(), error) == CorrectDirectly(old(Tables()), issue, value) && Inv(Tables())
    {
      CorrectKeeps(Tables(), issue, value);
      hide Inv, Upsert, Guard, SetStatus, IsBlank;
      if issue !in issues { return Some(NotFound); }
      error := CheckDecidable(issue);
      if error.Some? { return; }
      if IsBlank(value) { return Some(EmptyValue); }
      Settle(issue, None, Some(value), Some(Human), Edited, IssueResolved);
    }

    /** The validation pass of a bulk action. */
    method CheckBulk(ids: seq<Id>) returns (error: Option<Error>)
      ensures error == BulkError(Tables(), ids)
    {
      for k := 0 to |ids|
        invariant BulkError(Tables(), ids) == BulkError(Tables(), ids[k..])
      {
        assert ids[k..][1..] == ids[k + 1..];
        var issue := ids[k];
        if issue !in issues { return Some(NotFound); }
        if issue in corrections && IsTerminal(corrections[issue].status) { return Some(AlreadyDecided); }
      }
      error := None;
    }

    method ApplyBulk(ids: seq<Id>, skip: bool)
      requires forall i :: i in ids ==> i in issues
      modifies this
      ensures Tables() == BulkApply(old(Tables()), ids, skip)
    {
      hide Upsert;
      for k := 0 to |ids|
        invariant issues.Keys == old(issues).Keys
        invariant BulkRest(Tables(), ids[k..], skip) == BulkRest(old(Tables()), ids, skip)
      {
        assert ids[k..][1..] == ids[k + 1..];
        var issue := ids[k];
        assert issue in ids;
        BulkOneKeys(Tables(), issue, skip);
        Settle(issue, None, None, None, if skip then Skipped else Rejected,
               if skip then IssueSkipped else IssueResolved);
      }
    }

    /** Every listed issue is checked before any is changed. */
    method BulkAction(run: Id, ids: seq<Id>, skip: bool) returns (error: Option<Error>)
      requires Inv(Tables())
      modifies this
      ensures Outcome(Tables(), error) == Bulk(old(Tables()), run, ids, skip) && Inv(Tables())
    {
      BulkKeeps(Tables(), run, ids, skip);
      hide Inv, BulkApply, BulkError;
      if run !in runs { return Some(NotFound); }
      if runs[run] == ReadyForApproval { return Some(WrongStatus); }
      error := CheckBulk(ids);
      if error.Some? { return; }
      BulkErrorNone(Tables(), ids);
      ApplyBulk(ids, skip);
    }

    // --- approval ---------------------------------------------------------------------------

    method ReadScope(run: Id) returns (scope: set<Id>)
      ensures scope == ResolvedScope(Tables(), run)
    {
      scope := set i | i in issues && issues[i].run == run && i in corrections
                    && corrections[i].finalValue.Some? && !IsTerminal(corrections[i].status);
    }

    method ReadOpenRequests(run: Id) returns (open: set<Id>)
      ensures open == OpenRequests(Tables(), run)
    {
      open := set r | r in requests && requests[r].run == run && IsOpen(requests[r].status);
    }

    method InsertRequest(run: Id, scope: set<Id>)
      requires forall i :: i in scope ==> i in issues
      modifies this
      ensures Tables() == Submitted(old(Tables()), run, scope)
    {
      var records := set i | i in scope :: issues[i].recordRef;
      requests := requests[nextId := Request(run, Pending, |scope|, |records|, false)];
      nextId := nextId + 1;
      runs := runs[run := ReadyForApproval];
    }

    method SubmitRun(run: Id) returns (error: Option<Error>)
      requires Inv(Tables())
      modifies this
      ensures Outcome(Tables(), error) == Submit(old(Tables()), run) && Inv(Tables())
    {
      SubmitKeeps(Tables(), run);
      hide Inv, ResolvedScope, OpenRequests, RecordCount;
      if run !in runs { return Some(NotFound); }
      if runs[run] != InReview { return Some(WrongStatus); }
      var open := ReadOpenRequests(run);
      if |open| > 1 { return Some(MultipleRows); }
      if open != {} { return Some(AlreadyPending); }
      var scope := ReadScope(run);
      if scope == {} { return Some(NothingResolved); }
      InsertRequest(run, scope);
      error := None;
    }

    method RecordDecision(request: Id, verdict: Verdict, requested: set<Id>, left: set<Id>)
      requires request in requests
      modifies `decisions, `requests
      ensures decisions == old(decisions) + [Decision(request, verdict, requested)]
      ensures requests == old(requests)[request := old(requests)[request].(
        status := Recompute(decisions, request, left), decided := left == {} || old(requests)[request].decided)]
    {
      decisions := decisions + [Decision(request, verdict, requested)];
      var status := Recompute(decisions, request, left);
      requests := requests[request := requests[request].(status := status)];
      if left == {} { requests := requests[request := requests[request].(decided := true)]; }
    }

    method DecideRequest(request: Id, verdict: Verdict, ids: seq<Id>) returns (error: Option<Error>)
      requires Inv(Tables())
      modifies this
      ensures Outcome(Tables(), error) == Decide(old(Tables()), request, verdict, ids) && Inv(Tables())
    {
      DecideKeeps(Tables(), request, verdict, ids);
      hide Inv, ResolvedScope, Decided, Recompute;
      if request !in requests { return Some(NotFound); }
      var scope := ReadScope(requests[request].run);
      var remaining := scope - Decided(decisions, request);
      var requested := set i | i in ids;
      if requested == {} || !(requested <= remaining) { return Some(NotInScope); }
      RecordDecision(request, verdict, requested, remaining - requested);
      error := None;
    }

    method ArchiveRun(run: Id) returns (error: Option<Error>)
      requires Inv(Tables())
      modifies this
      ensures Outcome(Tables(), error) == Archive(old(Tables()), run) && Inv(Tables())
    {
      if run in runs { RunStatusKeeps(Tables(), run, Archived); }
      hide Inv;
      if run !in runs { return Some(NotFound); }
      if runs[run] == Archived { return Some(WrongStatus); }
      var open := ReadOpenRequests(run);
      if |open| > 1 { return Some(MultipleRows); }
      if open != {} { return Some(WrongStatus); }
      runs := runs[run := Archived];
      error := None;
    }

    method RestoreRun(run: Id) returns (error: Option<Error>)
      requires Inv(Tables())
      modifies this
      ensures Outcome(Tables(), error) == Restore(old(Tables()), run) && Inv(Tables())
    {
      if run in runs { RunStatusKeeps(Tables(), run, InReview); }
      hide Inv;
      if run !in runs { return Some(NotFound); }
      if runs[run] != Archived { return Some(WrongStatus); }
      runs := runs[run := InReview];
      error := None;
    }

    /** Decided and remaining counts of a request, as the detail view shows them. */
    method GetDetail(request: Id) returns (counts: Option<(nat, nat)>)
      ensures counts == if request in requests
        then Some((|Decided(decisions, request)|, |Remaining(Tables(), request)|)) else None
    {
      if request !in requests { return None; }
      var scope := ReadScope(requests[request].run);
      var decided := Decided(decisions, request);
      counts := Some((|decided|, |scope - decided|));
    }
  }

  /** The rows a submission writes. */
  ghost function Submitted(db: Db, run: Id, scope: set<Id>): Db
    requires forall i :: i in scope ==> i in db.issues
  {
    db.(requests := db.requests[db.nextId := Request(run, Pending, |scope|, RecordCount(db, scope), false)],
        runs := db.runs[run := ReadyForApproval], nextId := db.nextId + 1)
  }

  /** What is left of a bulk action. */
  ghost function BulkRest(db: Db, ids: seq<Id>, skip: bool): Db {
    if forall i :: i in ids ==> i in db.issues then BulkApply(db, ids, skip) else db
  }
}
