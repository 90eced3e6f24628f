/** What every run of the review protocol keeps about issues, suggestions and corrections. */
module ReviewInvariants {
  import opened Collections
  import opened ReviewProtocol

  ghost predicate IdsAreFresh(db: Db) {
    && (forall i :: i in db.runs ==> i < db.nextId)
    && (forall i :: i in db.issues ==> i < db.nextId)
    && (forall i :: i in db.suggestions ==> i < db.nextId)
    && (forall i :: i in db.corrections ==> db.corrections[i].id < db.nextId)
    && (forall i :: i in db.requests ==> i < db.nextId)
    && (forall d :: d in db.decisions ==> d.request < db.nextId)
  }

  ghost predicate IsLinked(db: Db) {
    && (forall i :: i in db.issues ==> db.issues[i].run in db.runs)
    && (forall s :: s in db.suggestions ==> db.suggestions[s].issue in db.issues)
    && (forall i :: i in db.corrections ==> i in db.issues)
    && (forall r :: r in db.requests ==> db.requests[r].run in db.runs)
  }

  /** An issue is PENDING exactly when it has no correction. */
  ghost predicate StatusesAgree(db: Db) {
    forall i :: i in db.issues ==> db.issues[i].status == StatusFor(db.corrections, i)
  }

  function StatusFor(corrections: map<Id, Correction>, i: Id): IssueStatus {
    if i !in corrections then IssuePending
    else if corrections[i].status == Skipped then IssueSkipped else IssueResolved
  }

  ghost predicate AtMostOneSelected(suggestions: map<Id, Suggestion>) {
    forall s, t | s in suggestions && t in suggestions && suggestions[s].selected && suggestions[t].selected ::
      suggestions[s].issue == suggestions[t].issue ==> s == t
  }

  ghost predicate IsSelectedFor(suggestions: map<Id, Suggestion>, s: Id, i: Id) {
    s in suggestions && suggestions[s].issue == i && suggestions[s].selected
  }

  /** What a correction's status says about its other fields. */
  ghost predicate IsSound(suggestions: map<Id, Suggestion>, i: Id, c: Correction) {
    match c.status
    case Accepted =>
      && c.suggestion.Some? && IsSelectedFor(suggestions, c.suggestion.value, i)
      && c.finalValue == Some(suggestions[c.suggestion.value].value) && !IsBlank(c.finalValue.value)
      && c.origin == Some(suggestions[c.suggestion.value].origin)
    case Edited =>
      && c.finalValue.Some? && !IsBlank(c.finalValue.value) && c.origin == Some(Human)
      && (c.suggestion.Some? ==> IsSelectedFor(suggestions, c.suggestion.value, i))
    case Rejected => c.finalValue == None
    case Skipped => c.finalValue == None && c.suggestion == None && c.origin == None
  }

  ghost predicate CorrectionsAreSound(db: Db) {
    forall i :: i in db.corrections ==> IsSound(db.suggestions, i, db.corrections[i])
  }

  /** Each correction has exactly one ISSUE edge, and each edge has its correction. */
  ghost predicate EdgesMatch(db: Db) {
    && (forall e :: e in db.edges ==> e.issue in db.corrections && db.corrections[e.issue].id == e.correction)
    && (forall i :: i in db.corrections ==> Edge(i, db.corrections[i].id) in db.edges)
    && (forall k, l :: 0 <= k < l < |db.edges| ==> db.edges[k].issue != db.edges[l].issue)
    && (forall i, j :: i in db.corrections && j in db.corrections && i != j ==>
          db.corrections[i].id != db.corrections[j].id)
  }

  ghost predicate Inv(db: Db) {
    && IdsAreFresh(db) && IsLinked(db) && StatusesAgree(db)
    && AtMostOneSelected(db.suggestions) && CorrectionsAreSound(db) && EdgesMatch(db)
  }

  lemma EmptyInv()
    ensures Inv(EMPTY)
  {
  }

  // --- steps that do not decide -----------------------------------------------------------

  lemma {:induction false} AddIssuesKeeps(db: Db, run: Id, refs: seq<string>)
    requires Inv(db) && run in db.runs
    ensures Inv(AddIssues(db, run, refs))
    decreases |refs|
  {
    if refs != [] {
      var one := db.(issues := db.issues[db.nextId := Issue(run, refs[0], IssuePending)], nextId := db.nextId + 1);
      NewIssueKeeps(db, run, refs[0]);
      hide Inv;
      AddIssuesKeeps(one, run, refs[1..]);
    }
  }

  lemma NewIssueKeeps(db: Db, run: Id, ref: string)
    requires Inv(db) && run in db.runs
    ensures Inv(db.(issues := db.issues[db.nextId := Issue(run, ref, IssuePending)], nextId := db.nextId + 1))
  {
    var one := db.(issues := db.issues[db.nextId := Issue(run, ref, IssuePending)], nextId := db.nextId + 1);
    assert db.nextId !in db.issues && db.nextId !in db.corrections;
    SameEdges(db, one);
    hide EdgesMatch, AtMostOneSelected;
    assert StatusesAgree(one);
    assert CorrectionsAreSound(one) by { hide StatusesAgree; }
  }

  lemma {:induction false} AddDraftsKeeps(db: Db, targets: set<Id>, drafts: seq<Draft>)
    requires Inv(db) && forall i :: i in targets ==> i in db.issues
    ensures Inv(AddDrafts(db, targets, drafts))
    decreases |drafts|
  {
    if drafts != [] {
      if drafts[0].issue !in targets {
        AddDraftsKeeps(db, targets, drafts[1..]);
      } else {
        var s := Suggestion(drafts[0].issue, drafts[0].value, drafts[0].origin, false);
        NewSuggestionKeeps(db, s);
        hide Inv;
        AddDraftsKeeps(db.(suggestions := db.suggestions[db.nextId := s], nextId := db.nextId + 1), targets,
                       drafts[1..]);
      }
    }
  }

  lemma NewSuggestionKeeps(db: Db, s: Suggestion)
    requires Inv(db) && s.issue in db.issues && !s.selected
    ensures Inv(db.(suggestions := db.suggestions[db.nextId := s], nextId := db.nextId + 1))
  {
    var one := db.(suggestions := db.suggestions[db.nextId := s], nextId := db.nextId + 1);
    hide IdsAreFresh, IsLinked, StatusesAgree, AtMostOneSelected, CorrectionsAreSound, EdgesMatch;
    SameEdges(db, one);
    NewSuggestionIsLinked(db, s);
    NewSuggestionIsSound(db, s);
  }

  lemma NewSuggestionIsLinked(db: Db, s: Suggestion)
    requires IdsAreFresh(db) && IsLinked(db) && StatusesAgree(db) && AtMostOneSelected(db.suggestions)
    requires s.issue in db.issues && !s.selected
    ensures var one := db.(suggestions := db.suggestions[db.nextId := s], nextId := db.nextId + 1);
      IdsAreFresh(one) && IsLinked(one) && StatusesAgree(one) && AtMostOneSelected(one.suggestions)
  {
    assert db.nextId !in db.suggestions;
  }

  lemma NewSuggestionIsSound(db: Db, s: Suggestion)
    requires IdsAreFresh(db) && CorrectionsAreSound(db)
    ensures CorrectionsAreSound(db.(suggestions := db.suggestions[db.nextId := s], nextId := db.nextId + 1))
  {
    var one := db.(suggestions := db.suggestions[db.nextId := s], nextId := db.nextId + 1);
    assert db.nextId !in db.suggestions;
    hide IsBlank, IdsAreFresh;
    forall i | i in one.corrections ensures IsSound(one.suggestions, i, one.corrections[i]) {
      assert IsSound(db.suggestions, i, db.corrections[i]);
    }
  }

  lemma CreateKeeps(db: Db, completed: Option<bool>, refs: seq<string>)
    requires Inv(db)
    ensures Inv(CreateRun(db, completed, refs).db)
  {
    var begun := db.(runs := db.runs[db.nextId := DraftRun], nextId := db.nextId + 1);
    assert Inv(begun);
    AddIssuesKeeps(begun, db.nextId, refs);
  }

  lemma GenerateKeeps(db: Db, run: Id, drafts: seq<Draft>)
    requires Inv(db)
    ensures Inv(Generate(db, run, drafts).db)
  {
    if run in db.runs {
      var begun := if db.runs[run] == DraftRun then db.(runs := db.runs[run := InReview]) else db;
      assert Inv(begun);
      AddDraftsKeeps(begun, Targets(db, run), drafts);
    }
  }

  lemma RunStatusKeeps(db: Db, run: Id, status: RunStatus)
    requires Inv(db) && run in db.runs
    ensures Inv(db.(runs := db.runs[run := status]))
  {
  }

  lemma SubmitKeeps(db: Db, run: Id)
    requires Inv(db)
    ensures Inv(Submit(db, run).db)
  {
    hide ResolvedScope, RecordCount, CorrectionsAreSound, EdgesMatch, StatusesAgree, AtMostOneSelected;
    var after := Submit(db, run).db;
    assert IdsAreFresh(after) && IsLinked(after);
    SameReviewTables(db, after);
  }

  lemma DecideKeeps(db: Db, request: Id, verdict: Verdict, issues: seq<Id>)
    requires Inv(db)
    ensures Inv(Decide(db, request, verdict, issues).db)
  {
    hide Remaining, CorrectionsAreSound, EdgesMatch, StatusesAgree, AtMostOneSelected, Recompute, ToIds;
    var after := Decide(db, request, verdict, issues).db;
    assert IdsAreFresh(after) && IsLinked(after);
    SameReviewTables(db, after);
  }

  lemma SameReviewTables(db: Db, after: Db)
    requires Inv(db)
    requires after.issues == db.issues && after.suggestions == db.suggestions && after.corrections == db.corrections
    requires after.edges == db.edges
    ensures StatusesAgree(after) && AtMostOneSelected(after.suggestions) && CorrectionsAreSound(after)
    ensures EdgesMatch(after)
  {
  }

  // --- steps that decide one issue -----------------------------------------------------------

  /** The tables after one decision: the correction upserted, the flags replaced, the issue's status set. */
  function Decision1(db: Db, issue: Id, c: Correction, suggestions: map<Id, Suggestion>): Db
    requires issue in db.issues
  {
    SetStatus(Upsert(db, issue, c.suggestion, c.finalValue, c.origin, c.status).(suggestions := suggestions), issue,
              if c.status == Skipped then IssueSkipped else IssueResolved)
  }

  /** The flags changed only among this issue's suggestions. */
  ghost predicate OnlyFlagsOf(issue: Id, before: map<Id, Suggestion>, after: map<Id, Suggestion>) {
    && after.Keys == before.Keys
    && forall s :: s in before ==>
         && after[s] == before[s].(selected := after[s].selected)
         && (before[s].issue != issue ==> after[s] == before[s])
  }

  lemma UpsertFrame(db: Db, issue: Id, suggestion: Option<Id>, finalValue: Option<string>,
                    origin: Option<Origin>, status: CorrectionStatus)
    ensures var r := Upsert(db, issue, suggestion, finalValue, origin, status);
      && r.corrections.Keys == db.corrections.Keys + {issue}
      && r.corrections[issue] == Correction(r.corrections[issue].id, suggestion, finalValue, origin, status)
      && (forall i :: i in db.corrections && i != issue ==> r.corrections[i] == db.corrections[i])
      && r.issues == db.issues && r.suggestions == db.suggestions && r.runs == db.runs && r.requests == db.requests
      && r.decisions == db.decisions
  {
  }

  lemma UpsertKeepsEdges(db: Db, issue: Id, suggestion: Option<Id>, finalValue: Option<string>,
                         origin: Option<Origin>, status: CorrectionStatus)
    requires IdsAreFresh(db) && EdgesMatch(db)
    ensures var r := Upsert(db, issue, suggestion, finalValue, origin, status); EdgesMatch(r) && IdsAreFresh(r)
  {
    var r := Upsert(db, issue, suggestion, finalValue, origin, status);
    if issue !in db.corrections {
      NewCorrectionKeepsEdges(db, issue, r.corrections[issue]);
      hide EdgesMatch;
    } else {
      assert r.edges == db.edges;
    }
  }

  lemma NewCorrectionKeepsEdges(db: Db, issue: Id, c: Correction)
    requires IdsAreFresh(db) && EdgesMatch(db) && issue !in db.corrections && c.id == db.nextId
    ensures EdgesMatch(db.(corrections := db.corrections[issue := c], edges := db.edges + [Edge(issue, c.id)],
                           nextId := db.nextId + 1))
  {
    var e, longer := Edge(issue, c.id), db.edges + [Edge(issue, c.id)];
    assert e == longer[|db.edges|];
    forall f | f in db.edges ensures f in longer { }
    forall k, l | 0 <= k < l < |longer| ensures longer[k].issue != longer[l].issue {
      assert longer[k] == db.edges[k] && db.edges[k] in db.edges;
    }
  }

  lemma DecisionKeeps(db: Db, issue: Id, c: Correction, suggestions: map<Id, Suggestion>)
    requires Inv(db) && issue in db.issues
    requires OnlyFlagsOf(issue, db.suggestions, suggestions) && AtMostOneSelected(suggestions)
    requires IsSound(suggestions, issue, c)
    ensures Inv(Decision1(db, issue, c, suggestions))
  {
    hide Upsert, EdgesMatch, StatusesAgree, CorrectionsAreSound, AtMostOneSelected, IsSound, OnlyFlagsOf, IdsAreFresh,
         IsLinked;
    DecisionKeepsEdges(db, issue, c, suggestions);
    DecisionKeepsIds(db, issue, c, suggestions);
    DecisionKeepsStatuses(db, issue, c, suggestions);
    DecisionStaysSound(db, issue, c, suggestions);
  }

  lemma DecisionKeepsEdges(db: Db, issue: Id, c: Correction, suggestions: map<Id, Suggestion>)
    requires IdsAreFresh(db) && EdgesMatch(db) && issue in db.issues
    ensures EdgesMatch(Decision1(db, issue, c, suggestions))
  {
    var up := Upsert(db, issue, c.suggestion, c.finalValue, c.origin, c.status);
    UpsertKeepsEdges(db, issue, c.suggestion, c.finalValue, c.origin, c.status);
    hide Upsert, IdsAreFresh;
    SameEdges(up, Decision1(db, issue, c, suggestions));
  }

  lemma DecisionKeepsIds(db: Db, issue: Id, c: Correction, suggestions: map<Id, Suggestion>)
    requires IdsAreFresh(db) && IsLinked(db) && EdgesMatch(db) && issue in db.issues
    requires OnlyFlagsOf(issue, db.suggestions, suggestions)
    ensures var after := Decision1(db, issue, c, suggestions);
      IdsAreFresh(after) && IsLinked(after) && after.suggestions == suggestions
  {
    UpsertKeepsEdges(db, issue, c.suggestion, c.finalValue, c.origin, c.status);
    UpsertFrame(db, issue, c.suggestion, c.finalValue, c.origin, c.status);
    hide Upsert, EdgesMatch;
  }

  lemma SameEdges(a: Db, b: Db)
    requires EdgesMatch(a) && a.edges == b.edges && a.corrections == b.corrections
    ensures EdgesMatch(b)
  {
  }

  lemma DecisionKeepsStatuses(db: Db, issue: Id, c: Correction, suggestions: map<Id, Suggestion>)
    requires StatusesAgree(db) && issue in db.issues
    ensures StatusesAgree(Decision1(db, issue, c, suggestions))
  {
    var after := Decision1(db, issue, c, suggestions);
    forall i | i in after.issues ensures after.issues[i].status == StatusFor(after.corrections, i) {
      assert db.issues[i].status == StatusFor(db.corrections, i);
    }
  }

  lemma DecisionStaysSound(db: Db, issue: Id, c: Correction, suggestions: map<Id, Suggestion>)
    requires CorrectionsAreSound(db) && issue in db.issues
    requires OnlyFlagsOf(issue, db.suggestions, suggestions) && IsSound(suggestions, issue, c)
    ensures CorrectionsAreSound(Decision1(db, issue, c, suggestions))
  {
    hide IsBlank;
    var after := Decision1(db, issue, c, suggestions);
    forall i | i in after.corrections ensures IsSound(after.suggestions, i, after.corrections[i]) {
      if i == issue {
        assert after.corrections[i] == c.(id := after.corrections[i].id);
      } else {
        assert IsSound(db.suggestions, i, db.corrections[i]);
      }
    }
  }

  lemma SelectIsExclusive(suggestions: map<Id, Suggestion>, issue: Id, chosen: Id)
    requires AtMostOneSelected(suggestions) && chosen in suggestions && suggestions[chosen].issue == issue
    ensures OnlyFlagsOf(issue, suggestions, Select(suggestions, issue, chosen))
    ensures AtMostOneSelected(Select(suggestions, issue, chosen))
    ensures IsSelectedFor(Select(suggestions, issue, chosen), chosen, issue)
  {
  }

  lemma AcceptKeeps(db: Db, suggestion: Id)
    requires Inv(db)
    ensures Inv(Accept(db, suggestion).db)
  {
    if Accept(db, suggestion).error.None? {
      var s := db.suggestions[suggestion];
      SelectIsExclusive(db.suggestions, s.issue, suggestion);
      DecisionKeeps(db, s.issue, Correction(0, Some(suggestion), Some(s.value), Some(s.origin), Accepted),
                    Select(db.suggestions, s.issue, suggestion));
    }
  }

  lemma EditKeeps(db: Db, suggestion: Id, value: string)
    requires Inv(db)
    ensures Inv(Edit(db, suggestion, value).db)
  {
    if Edit(db, suggestion, value).error.None? {
      var s := db.suggestions[suggestion];
      SelectIsExclusive(db.suggestions, s.issue, suggestion);
      DecisionKeeps(db, s.issue, Correction(0, Some(suggestion), Some(value), Some(Human), Edited),
                    Select(db.suggestions, s.issue, suggestion));
    }
  }

  /** A decision that touches no flags keeps the invariant. */
  lemma SettleKeeps(db: Db, issue: Id, c: Correction)
    requires Inv(db) && issue in db.issues && IsSound(db.suggestions, issue, c)
    ensures Inv(SetStatus(Upsert(db, issue, c.suggestion, c.finalValue, c.origin, c.status), issue,
                          if c.status == Skipped then IssueSkipped else IssueResolved))
  {
    assert AtMostOneSelected(db.suggestions) && OnlyFlagsOf(issue, db.suggestions, db.suggestions);
    hide Inv, IsSound, OnlyFlagsOf, AtMostOneSelected;
    DecisionKeeps(db, issue, c, db.suggestions);
    UpsertFrame(db, issue, c.suggestion, c.finalValue, c.origin, c.status);
    hide Upsert;
  }

  lemma RejectKeeps(db: Db, suggestion: Id)
    requires Inv(db)
    ensures Inv(Reject(db, suggestion).db)
  {
    hide Inv, Upsert, SetStatus;
    if Reject(db, suggestion).error.None? {
      var s := db.suggestions[suggestion];
      SettleKeeps(db, s.issue, Correction(0, Some(suggestion), None, Some(s.origin), Rejected));
    }
  }

  lemma SkipKeeps(db: Db, issue: Id)
    requires Inv(db)
    ensures Inv(Skip(db, issue).db)
  {
    hide Inv, Upsert, SetStatus;
    if Skip(db, issue).error.None? { SettleKeeps(db, issue, Correction(0, None, None, None, Skipped)); }
  }

  lemma CorrectKeeps(db: Db, issue: Id, value: string)
    requires Inv(db)
    ensures Inv(CorrectDirectly(db, issue, value).db)
  {
    hide Inv, Upsert, SetStatus, IsBlank;
    if CorrectDirectly(db, issue, value).error.None? {
      SettleKeeps(db, issue, Correction(0, None, Some(value), Some(Human), Edited));
    }
  }

  function BulkCorrection(skip: bool): Correction {
    Correction(0, None, None, None, if skip then Skipped else Rejected)
  }

  lemma BulkOneKeeps(db: Db, issue: Id, skip: bool)
    requires Inv(db) && issue in db.issues
    ensures Inv(BulkOne(db, issue, skip)) && BulkOne(db, issue, skip).issues.Keys == db.issues.Keys
  {
    hide Inv, Upsert;
    SettleKeeps(db, issue, BulkCorrection(skip));
    BulkOneKeys(db, issue, skip);
  }

  lemma BulkOneKeys(db: Db, issue: Id, skip: bool)
    requires issue in db.issues
    ensures BulkOne(db, issue, skip).issues.Keys == db.issues.Keys
  {
    UpsertFrame(db, issue, None, None, None, if skip then Skipped else Rejected);
    hide Upsert;
  }

  lemma {:induction false} BulkApplyKeeps(db: Db, issues: seq<Id>, skip: bool)
    requires Inv(db) && forall i :: i in issues ==> i in db.issues
    ensures Inv(BulkApply(db, issues, skip))
    decreases |issues|
  {
    if issues != [] {
      var i := issues[0];
      assert i in issues;
      BulkOneKeeps(db, i, skip);
      hide Inv, BulkOne;
      BulkApplyKeeps(BulkOne(db, i, skip), issues[1..], skip);
    }
  }

  lemma BulkKeeps(db: Db, run: Id, issues: seq<Id>, skip: bool)
    requires Inv(db)
    ensures Inv(Bulk(db, run, issues, skip).db)
  {
    hide Inv, BulkApply;
    BulkErrorNone(db, issues);
    if BulkError(db, issues).None? { BulkApplyKeeps(db, issues, skip); }
  }

  // --- every step, every run ---------------------------------------------------------------------

  /** Every step keeps the invariant. */
  lemma StepKeeps(db: Db, a: Action)
    requires Inv(db)
    ensures Inv(Step(db, a).db)
  {
    match a
    case DoCreate(completed, refs) => CreateKeeps(db, completed, refs);
    case DoGenerate(run, drafts) => GenerateKeeps(db, run, drafts);
    case DoAccept(s) => AcceptKeeps(db, s);
    case DoEdit(s, value) => EditKeeps(db, s, value);
    case DoReject(s) => RejectKeeps(db, s);
    case DoSkip(i) => SkipKeeps(db, i);
    case DoCorrect(i, value) => CorrectKeeps(db, i, value);
    case DoBulk(run, issues, skip) => BulkKeeps(db, run, issues, skip);
    case DoSubmit(run) => SubmitKeeps(db, run);
    case DoDecide(r, verdict, issues) => DecideKeeps(db, r, verdict, issues);
    case DoArchive(run) => if run in db.runs { RunStatusKeeps(db, run, Archived); }
    case DoRestore(run) => if run in db.runs { RunStatusKeeps(db, run, InReview); }
  }

  /** Every reachable state satisfies the invariant. */
  lemma {:induction false} ReachableInv(db: Db, actions: seq<Action>)
    requires Inv(db)
    ensures Inv(Perform(db, actions))
    decreases |actions|
  {
    hide Inv, Step;
    if actions != [] {
      StepKeeps(db, actions[0]);
      ReachableInv(Step(db, actions[0]).db, actions[1..]);
    }
  }

  /** Every state reached from empty tables has the invariant. */
  lemma ReachableFromEmpty(actions: seq<Action>)
    ensures Inv(Perform(EMPTY, actions))
  {
    EmptyInv();
    ReachableInv(EMPTY, actions);
  }

  // --- absorbing decisions and bulk actions ------------------------------------------------------

  ghost predicate IsDone(db: Db, i: Id) {
    i in db.corrections && IsTerminal(db.corrections[i].status)
  }

  /** A rejected or skipped correction is never changed again, whatever steps follow. */
  lemma {:induction false} TerminalIsAbsorbing(db: Db, actions: seq<Action>, i: Id)
    requires IsDone(db, i)
    ensures IsDone(Perform(db, actions), i) && Perform(db, actions).corrections[i] == db.corrections[i]
    decreases |actions|
  {
    if actions != [] {
      TerminalStep(db, actions[0], i);
      hide Step;
      TerminalIsAbsorbing(Step(db, actions[0]).db, actions[1..], i);
    }
  }

  lemma TerminalStep(db: Db, a: Action, i: Id)
    requires IsDone(db, i)
    ensures IsDone(Step(db, a).db, i) && Step(db, a).db.corrections[i] == db.corrections[i]
  {
    hide AddIssues, AddDrafts, BulkApply, BulkError, Targets, Accept, Edit, Reject, Skip, CorrectDirectly, Submit,
         Decide, Archive, Restore;
    match a
    case DoCreate(completed, refs) =>
      AddIssuesFrame(db.(runs := db.runs[db.nextId := DraftRun], nextId := db.nextId + 1), db.nextId, refs);
    case DoGenerate(run, drafts) =>
      if run in db.runs {
        var begun := if db.runs[run] == DraftRun then db.(runs := db.runs[run := InReview]) else db;
        AddDraftsFrame(begun, Targets(db, run), drafts);
      }
    case DoBulk(run, issues, skip) =>
      BulkErrorNone(db, issues);
      if Bulk(db, run, issues, skip).error.None? {
        BulkApplyFrame(db, issues, skip);
        if i !in issues { assert SameIssue(db, BulkApply(db, issues, skip), i); }
      }
    case _ => TerminalChoice(db, a, i);
  }

  /** Neither a decision on an issue nor a step of the approval touches a terminal correction. */
  lemma TerminalChoice(db: Db, a: Action, i: Id)
    requires IsDone(db, i) && !a.DoCreate? && !a.DoGenerate? && !a.DoBulk?
    ensures IsDone(Step(db, a).db, i) && Step(db, a).db.corrections[i] == db.corrections[i]
  {
    hide IsDone, Accept, Edit, Reject, Skip, CorrectDirectly, Submit, Decide, Archive, Restore;
    match a
    case DoAccept(s) => TerminalAccept(db, s, i);
    case DoEdit(s, value) => TerminalEdit(db, s, value, i);
    case DoReject(s) => TerminalReject(db, s, i);
    case DoSkip(issue) => TerminalSkip(db, issue, i);
    case DoCorrect(issue, value) => TerminalCorrect(db, issue, value, i);
    case _ =>
      TerminalRunStep(db, a, i);
      SameDone(db, Step(db, a).db, i);
  }

  lemma SameDone(a: Db, b: Db, i: Id)
    requires IsDone(a, i) && b.corrections == a.corrections && b.issues == a.issues
    ensures IsDone(b, i)
  {
  }

  lemma TerminalAccept(db: Db, s: Id, i: Id)
    requires IsDone(db, i)
    ensures IsDone(Accept(db, s).db, i) && Accept(db, s).db.corrections[i] == db.corrections[i]
  {
    hide Select, IsBlank;
  }

  lemma TerminalEdit(db: Db, s: Id, value: string, i: Id)
    requires IsDone(db, i)
    ensures IsDone(Edit(db, s, value).db, i) && Edit(db, s, value).db.corrections[i] == db.corrections[i]
  {
    hide Select, IsBlank;
  }

  lemma TerminalReject(db: Db, s: Id, i: Id)
    requires IsDone(db, i)
    ensures IsDone(Reject(db, s).db, i) && Reject(db, s).db.corrections[i] == db.corrections[i]
  {
    hide Select, IsBlank;
  }

  lemma TerminalSkip(db: Db, issue: Id, i: Id)
    requires IsDone(db, i)
    ensures IsDone(Skip(db, issue).db, i) && Skip(db, issue).db.corrections[i] == db.corrections[i]
  {
    hide Select, IsBlank;
  }

  lemma TerminalCorrect(db: Db, issue: Id, value: string, i: Id)
    requires IsDone(db, i)
    ensures IsDone(CorrectDirectly(db, issue, value).db, i)
    ensures CorrectDirectly(db, issue, value).db.corrections[i] == db.corrections[i]
  {
    hide Select, IsBlank;
  }

  lemma TerminalRunStep(db: Db, a: Action, i: Id)
    requires a.DoSubmit? || a.DoDecide? || a.DoArchive? || a.DoRestore?
    ensures Step(db, a).db.corrections == db.corrections && Step(db, a).db.issues == db.issues
  {
    hide CreateRun, Generate, Accept, Edit, Reject, Skip, CorrectDirectly, Bulk, Remaining, ResolvedScope, RecordCount,
         OpenRequests, Recompute;
  }

  /** What creating issues leaves alone. */
  lemma {:induction false} AddIssuesFrame(db: Db, run: Id, refs: seq<string>)
    ensures var r := AddIssues(db, run, refs);
      && r.corrections == db.corrections && r.suggestions == db.suggestions && r.edges == db.edges
      && r.requests == db.requests && r.decisions == db.decisions && r.runs == db.runs
      && (forall i :: i in r.issues && r.issues[i].run != run ==> i in db.issues && db.issues[i] == r.issues[i])
      && (forall i :: i in db.issues && i < db.nextId ==> i in r.issues && r.issues[i] == db.issues[i])
    decreases |refs|
  {
    if refs != [] {
      AddIssuesFrame(db.(issues := db.issues[db.nextId := Issue(run, refs[0], IssuePending)], nextId := db.nextId + 1),
                     run, refs[1..]);
    }
  }

  lemma {:induction false} AddDraftsFrame(db: Db, targets: set<Id>, drafts: seq<Draft>)
    ensures var r := AddDrafts(db, targets, drafts);
      && r.corrections == db.corrections && r.issues == db.issues && r.edges == db.edges
      && r.requests == db.requests && r.decisions == db.decisions && r.runs == db.runs
    decreases |drafts|
  {
    if drafts != [] {
      if drafts[0].issue !in targets {
        AddDraftsFrame(db, targets, drafts[1..]);
      } else {
        var s := Suggestion(drafts[0].issue, drafts[0].value, drafts[0].origin, false);
        AddDraftsFrame(db.(suggestions := db.suggestions[db.nextId := s], nextId := db.nextId + 1), targets,
                       drafts[1..]);
      }
    }
  }

  /** A bulk action gives every listed issue the same empty decision and touches no other issue. */
  lemma {:induction false} BulkApplyFrame(db: Db, issues: seq<Id>, skip: bool)
    requires forall i :: i in issues ==> i in db.issues
    ensures BulkFrame(db, BulkApply(db, issues, skip), issues, skip)
    decreases |issues|
  {
    if issues != [] {
      var i := issues[0];
      assert i in issues && issues == [i] + issues[1..];
      BulkOneFrame(db, i, skip);
      hide BulkOne, BulkFrame;
      assert BulkOne(db, i, skip).issues.Keys == db.issues.Keys by { BulkOneKeys(db, i, skip); }
      BulkApplyFrame(BulkOne(db, i, skip), issues[1..], skip);
      BulkFrameThen(db, BulkOne(db, i, skip), BulkApply(BulkOne(db, i, skip), issues[1..], skip), i, issues[1..], skip);
    }
  }

  lemma BulkOneFrame(db: Db, i: Id, skip: bool)
    requires i in db.issues
    ensures BulkFrame(db, BulkOne(db, i, skip), [i], skip)
  {
    UpsertFrame(db, i, None, None, None, if skip then Skipped else Rejected);
    hide Upsert;
  }

  lemma BulkFrameThen(db: Db, one: Db, r: Db, i: Id, rest: seq<Id>, skip: bool)
    requires BulkFrame(db, one, [i], skip) && BulkFrame(one, r, rest, skip)
    ensures BulkFrame(db, r, [i] + rest, skip)
  {
    assert i in [i];
    forall j | j !in [i] + rest ensures SameIssue(db, r, j) {
      assert j !in [i] && j !in rest;
      SameIssueTransitive(db, one, r, j);
    }
    forall j | j in [i] + rest ensures BulkDecided(r, j, skip) {
      hide BulkDecided, SameIssue;
      if j !in rest {
        assert j == i;
        StaysDecided(one, r, i, skip);
      }
    }
    hide BulkDecided, SameIssue;
  }

  lemma SameIssueTransitive(a: Db, b: Db, c: Db, i: Id)
    requires SameIssue(a, b, i) && SameIssue(b, c, i)
    ensures SameIssue(a, c, i)
  {
  }

  lemma StaysDecided(a: Db, b: Db, i: Id, skip: bool)
    requires BulkDecided(a, i, skip) && SameIssue(a, b, i)
    ensures BulkDecided(b, i, skip)
  {
  }

  /** What a bulk action decides, and what it leaves alone. */
  ghost predicate BulkFrame(db: Db, r: Db, issues: seq<Id>, skip: bool) {
    && r.runs == db.runs && r.requests == db.requests && r.decisions == db.decisions && r.suggestions == db.suggestions
    && r.issues.Keys == db.issues.Keys
    && (forall i :: i in issues ==> BulkDecided(r, i, skip))
    && (forall i :: i !in issues ==> SameIssue(db, r, i))
    && (forall i :: i in db.issues ==>
          r.issues[i].run == db.issues[i].run && r.issues[i].recordRef == db.issues[i].recordRef)
  }

  ghost predicate BulkDecided(db: Db, i: Id, skip: bool) {
    && i in db.issues && i in db.corrections
    && db.issues[i].status == (if skip then IssueSkipped else IssueResolved)
    && db.corrections[i].status == (if skip then Skipped else Rejected) && db.corrections[i].finalValue == None
  }

  ghost predicate SameIssue(a: Db, b: Db, i: Id) {
    && (i in a.issues <==> i in b.issues) && (i in a.issues ==> a.issues[i] == b.issues[i])
    && (i in a.corrections <==> i in b.corrections) && (i in a.corrections ==> a.corrections[i] == b.corrections[i])
  }

  /**
    All or nothing: a bulk action that reports an error changed nothing; otherwise every listed issue is decided, and
    no other.
  */
  lemma BulkIsAllOrNothing(db: Db, run: Id, issues: seq<Id>, skip: bool)
    ensures var r := Bulk(db, run, issues, skip);
      && (r.error.Some? ==> r.db == db)
      && (r.error.None? ==> (forall i :: i in issues ==> BulkDecided(r.db, i, skip))
                            && forall i :: i !in issues ==> SameIssue(db, r.db, i))
      && (r.error.None? <==> run in db.runs && db.runs[run] != ReadyForApproval
                             && forall i :: i in issues ==> i in db.issues && !IsDone(db, i))
  {
    BulkErrorNone(db, issues);
    hide BulkApply, BulkError;
    if Bulk(db, run, issues, skip).error.None? { BulkApplyFrame(db, issues, skip); }
  }
}
