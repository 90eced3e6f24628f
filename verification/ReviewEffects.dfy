/** When each step of the review protocol is accepted, what it changes, and what histories of decisions mean. */
module ReviewEffects {
  import opened Collections
  import opened Text
  import opened ReviewProtocol
  import opened ReviewInvariants
  import opened ReviewLedger

  // --- the decision on one issue -----------------------------------------------------------------

  ghost predicate IsDecisionAction(a: Action) {
    a.DoAccept? || a.DoEdit? || a.DoReject? || a.DoSkip? || a.DoCorrect?
  }

  /** The action decides this issue, directly or through one of its suggestions. */
  ghost predicate IsAbout(db: Db, a: Action, i: Id) {
    i in db.issues &&
    match a
    case DoAccept(s) => s in db.suggestions && db.suggestions[s].issue == i
    case DoEdit(s, _) => s in db.suggestions && db.suggestions[s].issue == i
    case DoReject(s) => s in db.suggestions && db.suggestions[s].issue == i
    case DoSkip(j) => j == i
    case DoCorrect(j, _) => j == i
    case _ => false
  }

  /** The value the action gives the issue, if it gives one, is not blank. */
  ghost predicate GivesText(db: Db, a: Action) {
    match a
    case DoAccept(s) => s in db.suggestions && HasText(db.suggestions[s].value)
    case DoEdit(_, value) => HasText(value)
    case DoCorrect(_, value) => HasText(value)
    case _ => true
  }

  /** Its run is not frozen, and its correction is neither rejected nor skipped. */
  ghost predicate IsDecidable(db: Db, i: Id)
    requires i in db.issues
  {
    && (db.issues[i].run in db.runs ==> db.runs[db.issues[i].run] != ReadyForApproval)
    && (i in db.corrections ==> db.corrections[i].status != Rejected && db.corrections[i].status != Skipped)
  }

  /** The correction row the action leaves, but for its id. */
  ghost predicate Records(db: Db, a: Action, c: Correction) {
    match a
    case DoAccept(s) =>
      && s in db.suggestions && c.suggestion == Some(s) && c.status == Accepted
      && c.finalValue == Some(db.suggestions[s].value) && c.origin == Some(db.suggestions[s].origin)
    case DoEdit(s, value) =>
      c.suggestion == Some(s) && c.status == Edited && c.finalValue == Some(value) && c.origin == Some(Human)
    case DoReject(s) =>
      && s in db.suggestions && c.suggestion == Some(s) && c.status == Rejected
      && c.finalValue == None && c.origin == Some(db.suggestions[s].origin)
    case DoSkip(_) => c.suggestion == None && c.status == Skipped && c.finalValue == None && c.origin == None
    case DoCorrect(_, value) =>
      c.suggestion == None && c.status == Edited && c.finalValue == Some(value) && c.origin == Some(Human)
    case _ => false
  }

  /** What the action selects: its suggestion and no other of the issue, or nothing changes. */
  ghost predicate Selects(db: Db, a: Action, i: Id, after: Db) {
    && after.suggestions.Keys == db.suggestions.Keys
    && forall s :: s in db.suggestions ==>
         && after.suggestions[s] == db.suggestions[s].(selected := after.suggestions[s].selected)
         && (after.suggestions[s].selected <==>
               if db.suggestions[s].issue == i && (a == DoAccept(s) || (a.DoEdit? && a.suggestion == s)) then true
               else if db.suggestions[s].issue == i && (a.DoAccept? || a.DoEdit?) then false
               else db.suggestions[s].selected)
  }

  /** No row but those of this issue changes. */
  ghost predicate OthersStay(db: Db, i: Id, after: Db) {
    && after.runs == db.runs && after.requests == db.requests && after.decisions == db.decisions
    && after.issues.Keys == db.issues.Keys && after.corrections.Keys == db.corrections.Keys + {i}
    && (forall j :: j in db.issues && j != i ==> after.issues[j] == db.issues[j])
    && (forall j :: j in db.corrections && j != i ==> after.corrections[j] == db.corrections[j])
  }

  /** The issue's row, its correction with a kept or a new id, and the lineage edge of a new one. */
  ghost predicate RowsAre(db: Db, a: Action, i: Id, after: Db)
    requires i in db.issues
  {
    && i in after.issues && i in after.corrections
    && after.issues[i] == Issue(db.issues[i].run, db.issues[i].recordRef,
                                if a.DoSkip? then IssueSkipped else IssueResolved)
    && Records(db, a, after.corrections[i])
    && after.corrections[i].id == (if i in db.corrections then db.corrections[i].id else db.nextId)
    && after.edges == db.edges + (if i in db.corrections then [] else [Edge(i, db.nextId)])
    && after.nextId == db.nextId + (if i in db.corrections then 0 else 1)
  }

  /** The decision on one issue, and nothing else. */
  ghost predicate DecidesOne(db: Db, a: Action, i: Id, after: Db)
    requires i in db.issues
  {
    OthersStay(db, i, after) && RowsAre(db, a, i, after) && Selects(db, a, i, after)
  }

  /** A decision on an issue is accepted exactly on a decidable issue and with a text where one is given. */
  lemma DecisionAcceptedIff(db: Db, a: Action)
    requires IsDecisionAction(a)
    ensures Step(db, a).error.None? <==> exists i :: IsAbout(db, a, i) && IsDecidable(db, i) && GivesText(db, a)
  {
    forall s | s in db.suggestions ensures IsBlank(db.suggestions[s].value) <==> !HasText(db.suggestions[s].value) {
      BlankIffNoText(db.suggestions[s].value);
    }
    if a.DoEdit? || a.DoCorrect? { BlankIffNoText(a.value); }
    hide IsBlank, HasText, Upsert, Select, SetStatus;
    forall i | IsAbout(db, a, i) ensures IsDecidable(db, i) <==> Guard(db, i).None? { }
    if a.DoAccept? || a.DoEdit? || a.DoReject? {
      if a.suggestion in db.suggestions && db.suggestions[a.suggestion].issue in db.issues {
        assert IsAbout(db, a, db.suggestions[a.suggestion].issue);
      }
    } else {
      if a.issue in db.issues { assert IsAbout(db, a, a.issue); }
    }
  }

  /** What it stores: the row the action describes, for that issue alone. */
  lemma DecisionStores(db: Db, a: Action, i: Id)
    requires IsDecisionAction(a) && Step(db, a).error.None? && IsAbout(db, a, i)
    ensures DecidesOne(db, a, i, Step(db, a).db)
  {
    hide DecidesOne, IsBlank;
    match a
    case DoAccept(_) => SelectionStores(db, a, i);
    case DoEdit(_, _) => SelectionStores(db, a, i);
    case _ => OtherStores(db, a, i);
  }

  /** A decision writes one correction row, sets the issue's status, and leaves or replaces the flags. */
  lemma WrittenIsStored(db: Db, a: Action, i: Id, c: Correction, status: IssueStatus, flags: map<Id, Suggestion>)
    requires i in db.issues && status == (if a.DoSkip? then IssueSkipped else IssueResolved) && Records(db, a, c)
    requires Selects(db, a, i, db.(suggestions := flags))
    ensures var r := Upsert(db, i, c.suggestion, c.finalValue, c.origin, c.status);
      DecidesOne(db, a, i, SetStatus(r.(suggestions := flags), i, status))
  {
    var r := Upsert(db, i, c.suggestion, c.finalValue, c.origin, c.status);
    hide Selects, Records, OthersStay;
    var after := SetStatus(r.(suggestions := flags), i, status);
    SelectsSame(db, a, i, db.(suggestions := flags), after);
    SameRecord(db, a, c, after.corrections[i]);
    WrittenLeavesOthers(db, i, c, status, flags);
    hide DecidesOne;
    assert RowsAre(db, a, i, after);
    AllOfOne(db, a, i, after);
  }

  lemma AllOfOne(db: Db, a: Action, i: Id, after: Db)
    requires i in db.issues && OthersStay(db, i, after) && RowsAre(db, a, i, after) && Selects(db, a, i, after)
    ensures DecidesOne(db, a, i, after)
  {
  }

  lemma WrittenLeavesOthers(db: Db, i: Id, c: Correction, status: IssueStatus, flags: map<Id, Suggestion>)
    requires i in db.issues
    ensures var r := Upsert(db, i, c.suggestion, c.finalValue, c.origin, c.status);
      OthersStay(db, i, SetStatus(r.(suggestions := flags), i, status))
  {
  }

  lemma SelectsSame(db: Db, a: Action, i: Id, after: Db, other: Db)
    requires Selects(db, a, i, after) && other.suggestions == after.suggestions
    ensures Selects(db, a, i, other)
  {
  }

  lemma SameRecord(db: Db, a: Action, c: Correction, d: Correction)
    requires Records(db, a, c) && d == c.(id := d.id)
    ensures Records(db, a, d)
  {
  }

  lemma SelectionStores(db: Db, a: Action, i: Id)
    requires a.DoAccept? || a.DoEdit?
    requires Step(db, a).error.None? && IsAbout(db, a, i)
    ensures DecidesOne(db, a, i, Step(db, a).db)
  {
    var s := a.suggestion;
    var row := db.suggestions[s];
    var c := if a.DoAccept? then Correction(0, Some(s), Some(row.value), Some(row.origin), Accepted)
             else Correction(0, Some(s), Some(a.value), Some(Human), Edited);
    var flags := Select(db.suggestions, i, s);
    assert Selects(db, a, i, db.(suggestions := flags));
    assert Upsert(db, i, c.suggestion, c.finalValue, c.origin, c.status).suggestions == db.suggestions;
    hide DecidesOne, IsBlank, Selects, Select, SetStatus, Guard, Upsert;
    WrittenIsStored(db, a, i, c, IssueResolved, flags);
  }

  lemma OtherStores(db: Db, a: Action, i: Id)
    requires a.DoReject? || a.DoSkip? || a.DoCorrect?
    requires Step(db, a).error.None? && IsAbout(db, a, i)
    ensures DecidesOne(db, a, i, Step(db, a).db)
  {
    var c :=
      match a
      case DoReject(s) => Correction(0, Some(s), None, Some(db.suggestions[s].origin), Rejected)
      case DoSkip(_) => Correction(0, None, None, None, Skipped)
      case DoCorrect(_, value) => Correction(0, None, Some(value), Some(Human), Edited);
    assert Selects(db, a, i, db.(suggestions := db.suggestions));
    hide DecidesOne, IsBlank, Selects, SetStatus, Guard;
    WrittenIsStored(db, a, i, c, if a.DoSkip? then IssueSkipped else IssueResolved, db.suggestions);
    var r := Upsert(db, i, c.suggestion, c.finalValue, c.origin, c.status);
    assert r.(suggestions := db.suggestions) == r;
  }

  // --- the actions on runs and requests ------------------------------------------------------------

  /** The issues of a run with a value to approve: corrected, and not rejected or skipped. */
  ghost predicate HasValue(db: Db, run: Id, i: Id) {
    && i in db.issues && db.issues[i].run == run && i in db.corrections && db.corrections[i].finalValue.Some?
    && db.corrections[i].status != Rejected && db.corrections[i].status != Skipped
  }

  /** No decision on the request names the issue. */
  ghost predicate IsUndecided(db: Db, r: Id, i: Id) {
    forall d :: d in db.decisions && d.request == r ==> i !in d.issues
  }

  ghost predicate IsOpenOn(db: Db, run: Id, r: Id) {
    r in db.requests && db.requests[r].run == run && db.requests[r].status in {Pending, PartiallyApproved}
  }

  /** When an action on a run or a request is accepted. */
  ghost predicate IsAllowed(db: Db, a: Action) {
    match a
    case DoCreate(completed, _) => completed == Some(true)
    case DoGenerate(run, _) => run in db.runs
    case DoBulk(run, issues, _) =>
      && run in db.runs && db.runs[run] != ReadyForApproval
      && forall i :: i in issues ==>
           && i in db.issues
           && (i in db.corrections ==> db.corrections[i].status != Rejected && db.corrections[i].status != Skipped)
    case DoSubmit(run) =>
      && run in db.runs && db.runs[run] == InReview && (forall r :: !IsOpenOn(db, run, r))
      && exists i :: HasValue(db, run, i)
    case DoDecide(r, _, issues) =>
      && r in db.requests && issues != []
      && forall i :: i in issues ==> HasValue(db, db.requests[r].run, i) && IsUndecided(db, r, i)
    case DoArchive(run) => run in db.runs && db.runs[run] != Archived && forall r :: !IsOpenOn(db, run, r)
    case DoRestore(run) => run in db.runs && db.runs[run] == Archived
    case _ => false
  }

  lemma OpenIffNone(db: Db, run: Id)
    ensures OpenRequests(db, run) == {} <==> forall r :: !IsOpenOn(db, run, r)
  {
    if r :| IsOpenOn(db, run, r) { assert r in OpenRequests(db, run); }
    if OpenRequests(db, run) != {} {
      var r :| r in OpenRequests(db, run);
      assert IsOpenOn(db, run, r);
    }
  }

  lemma ScopeIffValue(db: Db, run: Id)
    ensures forall i :: i in ResolvedScope(db, run) <==> HasValue(db, run, i)
    ensures ResolvedScope(db, run) == {} <==> forall i :: !HasValue(db, run, i)
  {
    if ResolvedScope(db, run) != {} {
      var i :| i in ResolvedScope(db, run);
      assert HasValue(db, run, i);
    }
  }

  lemma BulkAllowed(db: Db, run: Id, issues: seq<Id>, skip: bool)
    ensures Bulk(db, run, issues, skip).error.None? <==> IsAllowed(db, DoBulk(run, issues, skip))
  {
    BulkErrorNone(db, issues);
    hide BulkApply, BulkError;
  }

  lemma DecideAllowed(db: Db, r: Id, verdict: Verdict, issues: seq<Id>)
    ensures Decide(db, r, verdict, issues).error.None? <==> IsAllowed(db, DoDecide(r, verdict, issues))
  {
    if r in db.requests {
      ScopeIffValue(db, db.requests[r].run);
      hide ResolvedScope, Recompute, HasValue;
      forall i ensures i in Decided(db.decisions, r) <==> !IsUndecided(db, r, i) { }
      hide Decided, IsUndecided;
      if issues != [] { assert issues[0] in ToIds(issues); }
      assert ToIds(issues) <= Remaining(db, r) <==> forall i :: i in issues ==> i in Remaining(db, r);
    }
  }

  /** These actions are accepted exactly when they are allowed. */
  lemma RunActionAcceptedIff(db: Db, a: Action)
    requires !IsDecisionAction(a)
    ensures Step(db, a).error.None? <==> IsAllowed(db, a)
  {
    hide AddIssues, AddDrafts, ResolvedScope, OpenRequests, RecordCount, Bulk, Decide, HasValue, IsOpenOn;
    match a
    case DoCreate(_, _) =>
    case DoGenerate(_, _) =>
    case DoBulk(run, issues, skip) => BulkAllowed(db, run, issues, skip);
    case DoSubmit(run) =>
      OpenIffNone(db, run);
      ScopeIffValue(db, run);
    case DoDecide(r, verdict, issues) => DecideAllowed(db, r, verdict, issues);
    case DoArchive(run) => OpenIffNone(db, run);
    case DoRestore(_) =>
  }

  /** A submitted request: its run, its status, and how many issues and different records it is about. */
  lemma SubmitStores(db: Db, run: Id, scope: set<Id>, records: set<string>)
    requires Step(db, DoSubmit(run)).error.None?
    requires forall i :: i in scope <==> HasValue(db, run, i)
    requires forall ref :: ref in records <==> exists i :: i in scope && i in db.issues && db.issues[i].recordRef == ref
    ensures Step(db, DoSubmit(run)).db ==
      db.(requests := db.requests[db.nextId := Request(run, Pending, |scope|, |records|, false)],
          runs := db.runs[run := ReadyForApproval], nextId := db.nextId + 1)
  {
    ScopeIffValue(db, run);
    assert scope == ResolvedScope(db, run);
    assert records == set i | i in scope :: db.issues[i].recordRef;
    hide ResolvedScope, OpenRequests, HasValue;
  }

  /** The status that a request's decisions dictate, once a decision on it is stored. */
  ghost predicate IsDictated(db: Db, r: Id, status: RequestStatus)
    requires r in db.requests
  {
    var isOver := forall i :: HasValue(db, db.requests[r].run, i) ==> !IsUndecided(db, r, i);
    match status
    case Pending => false
    case PartiallyApproved => !isOver
    case Approved => isOver && forall d :: d in db.decisions && d.request == r ==> d.verdict == Approve
    case Refused => isOver && exists d :: d in db.decisions && d.request == r && d.verdict == Refuse
  }

  /** A decision is stored as it was given, and the request gets the status it then has to have. */
  lemma DecideStores(db: Db, r: Id, verdict: Verdict, issues: seq<Id>, asked: set<Id>)
    requires Step(db, DoDecide(r, verdict, issues)).error.None?
    requires forall i :: i in asked <==> i in issues
    ensures r in db.requests
    ensures var after := Step(db, DoDecide(r, verdict, issues)).db;
      && r in after.requests && after == db.(decisions := after.decisions, requests := after.requests)
      && after.decisions == db.decisions + [Decision(r, verdict, asked)]
      && after.requests == db.requests[r := after.requests[r]]
      && after.requests[r] == db.requests[r].(status := after.requests[r].status, decided := after.requests[r].decided)
      && IsDictated(after, r, after.requests[r].status)
      && (after.requests[r].decided <==> db.requests[r].decided || after.requests[r].status != PartiallyApproved)
  {
    var d := Decision(r, verdict, asked);
    var after := Step(db, DoDecide(r, verdict, issues)).db;
    assert ToIds(issues) == asked;
    assert after.decisions == db.decisions + [d];
    DecidedSnoc(db.decisions, d, r);
    ScopeIffValue(db, db.requests[r].run);
    ScopeIffValue(after, db.requests[r].run);
    SameScope(db, after, db.requests[r].run);
    DictatedIff(after, r, Remaining(db, r) - asked);
  }

  lemma DictatedIff(db: Db, r: Id, left: set<Id>)
    requires r in db.requests && left == ResolvedScope(db, db.requests[r].run) - Decided(db.decisions, r)
    ensures IsDictated(db, r, Recompute(db.decisions, r, left))
  {
    ScopeIffValue(db, db.requests[r].run);
    forall i ensures i in Decided(db.decisions, r) <==> !IsUndecided(db, r, i) { }
    hide ResolvedScope, HasValue, Decided, IsUndecided;
    if i :| i in left { assert HasValue(db, db.requests[r].run, i) && IsUndecided(db, r, i); }
  }

  lemma ArchiveStores(db: Db, run: Id)
    ensures Step(db, DoArchive(run)).error.None? ==>
      Step(db, DoArchive(run)).db == db.(runs := db.runs[run := Archived])
    ensures Step(db, DoRestore(run)).error.None? ==>
      Step(db, DoRestore(run)).db == db.(runs := db.runs[run := InReview])
  {
  }

  /** A new run in draft, with one pending issue for every failure, in their order. */
  lemma CreateStores(db: Db, refs: seq<string>)
    requires Inv(db)
    ensures var after, run := Step(db, DoCreate(Some(true), refs)).db, db.nextId;
      && after == db.(runs := after.runs, issues := after.issues, nextId := after.nextId)
      && after.runs == db.runs[run := DraftRun] && after.nextId == run + 1 + |refs|
      && (forall i :: i in after.issues <==> i in db.issues || run < i <= run + |refs|)
      && (forall i :: i in db.issues ==> after.issues[i] == db.issues[i])
      && (forall k :: 0 <= k < |refs| ==> after.issues[run + 1 + k] == Issue(run, refs[k], IssuePending))
  {
    AddIssuesStores(db.(runs := db.runs[db.nextId := DraftRun], nextId := db.nextId + 1), db.nextId, refs);
    hide AddIssues;
  }

  lemma {:induction false} AddIssuesStores(db: Db, run: Id, refs: seq<string>)
    requires forall i :: i in db.issues ==> i < db.nextId
    ensures var after, n := AddIssues(db, run, refs), db.nextId;
      && after == db.(issues := after.issues, nextId := n + |refs|)
      && (forall i :: i in after.issues <==> i in db.issues || n <= i < n + |refs|)
      && (forall i :: i in db.issues ==> after.issues[i] == db.issues[i])
      && (forall k :: 0 <= k < |refs| ==> after.issues[n + k] == Issue(run, refs[k], IssuePending))
    decreases |refs|
  {
    if refs != [] {
      var n := db.nextId;
      var next := db.(issues := db.issues[n := Issue(run, refs[0], IssuePending)], nextId := n + 1);
      AddIssuesStores(next, run, refs[1..]);
      var after := AddIssues(db, run, refs);
      assert after == AddIssues(next, run, refs[1..]);
      hide AddIssues;
      forall k | 0 <= k < |refs| ensures after.issues[n + k] == Issue(run, refs[k], IssuePending) {
        if k > 0 { assert refs[k] == refs[1..][k - 1] && after.issues[n + 1 + (k - 1)] == after.issues[n + k]; }
      }
    }
  }

  /** The drafts for pending issues of the run that had no suggestion. */
  ghost predicate IsWanted(db: Db, run: Id, i: Id) {
    && i in db.issues && db.issues[i].run == run && db.issues[i].status == IssuePending
    && forall s :: s in db.suggestions ==> db.suggestions[s].issue != i
  }

  function WantedIn(targets: set<Id>): Draft -> Option<Draft> {
    (d: Draft) => if d.issue in targets then Some(d) else None
  }

  /** One new unselected suggestion for each of these drafts, in their order, and no other change. */
  ghost predicate AreSuggested(db: Db, after: Db, drafts: seq<Draft>) {
    var n := db.nextId;
    && after == db.(suggestions := after.suggestions, nextId := n + |drafts|)
    && (forall s :: s in after.suggestions <==> s in db.suggestions || n <= s < n + |drafts|)
    && (forall s :: s in db.suggestions ==> after.suggestions[s] == db.suggestions[s])
    && forall s :: n <= s < n + |drafts| ==> after.suggestions[s] == Suggested(drafts[s - n])
  }

  function Suggested(d: Draft): Suggestion { Suggestion(d.issue, d.value, d.origin, false) }

  /** Each wanted draft becomes a suggestion, and a drafted run goes into review. */
  lemma GenerateStores(db: Db, run: Id, drafts: seq<Draft>, targets: set<Id>)
    requires Inv(db) && run in db.runs && forall i :: i in targets <==> IsWanted(db, run, i)
    ensures var begun := db.(runs := db.runs[run := if db.runs[run] == DraftRun then InReview else db.runs[run]]);
      AreSuggested(begun, Step(db, DoGenerate(run, drafts)).db, FilterMap(drafts, WantedIn(targets)))
  {
    assert targets == Targets(db, run);
    var begun := if db.runs[run] == DraftRun then db.(runs := db.runs[run := InReview]) else db;
    AddDraftsStores(begun, targets, drafts);
    hide AddDrafts, Targets, FilterMap, AreSuggested;
    assert db.runs[run] != DraftRun ==> db.runs[run := db.runs[run]] == db.runs;
  }

  lemma {:induction false} AddDraftsStores(db: Db, targets: set<Id>, drafts: seq<Draft>)
    requires forall s :: s in db.suggestions ==> s < db.nextId
    ensures AreSuggested(db, AddDrafts(db, targets, drafts), FilterMap(drafts, WantedIn(targets)))
    decreases |drafts|
  {
    if drafts != [] {
      if drafts[0].issue !in targets {
        AddDraftsStores(db, targets, drafts[1..]);
      } else {
        var next := db.(suggestions := db.suggestions[db.nextId := Suggested(drafts[0])], nextId := db.nextId + 1);
        AddDraftsStores(next, targets, drafts[1..]);
        var rest := FilterMap(drafts[1..], WantedIn(targets));
        assert FilterMap(drafts, WantedIn(targets)) == [drafts[0]] + rest;
        SuggestedFirst(db, drafts[0], AddDrafts(next, targets, drafts[1..]), rest);
      }
    }
  }

  lemma SuggestedFirst(db: Db, d: Draft, after: Db, rest: seq<Draft>)
    requires forall s :: s in db.suggestions ==> s < db.nextId
    requires var next := db.(suggestions := db.suggestions[db.nextId := Suggested(d)], nextId := db.nextId + 1);
      AreSuggested(next, after, rest)
    ensures AreSuggested(db, after, [d] + rest)
  {
    var n, drafts := db.nextId, [d] + rest;
    assert after.suggestions[n] == Suggested(d);
    forall s | n < s < n + |drafts| ensures after.suggestions[s] == Suggested(drafts[s - n]) {
      assert drafts[s - n] == rest[s - (n + 1)];
    }
  }

  /** Every listed issue gets an empty rejection or skip, and no other issue changes. */
  lemma BulkStores(db: Db, run: Id, issues: seq<Id>, skip: bool)
    requires Step(db, DoBulk(run, issues, skip)).error.None?
    ensures var after := Step(db, DoBulk(run, issues, skip)).db;
      && after.runs == db.runs && after.requests == db.requests && after.decisions == db.decisions
      && after.suggestions == db.suggestions && after.issues.Keys == db.issues.Keys
      && (forall i :: i in issues ==> IsEmptied(db, after, i, skip))
      && (forall i :: i !in issues ==> SameIssue(db, after, i))
  {
    BulkErrorNone(db, issues);
    hide BulkApply, BulkError;
    BulkApplyFrame(db, issues, skip);
    var after := BulkApply(db, issues, skip);
    forall i | i in issues ensures IsEmptied(db, after, i, skip) { BulkEmpties(db, issues, skip, i); }
  }

  ghost predicate IsEmptied(db: Db, after: Db, i: Id, skip: bool) {
    && i in db.issues && i in after.issues && i in after.corrections
    && after.issues[i] == Issue(db.issues[i].run, db.issues[i].recordRef,
                                if skip then IssueSkipped else IssueResolved)
    && (i in db.corrections ==> after.corrections[i].id == db.corrections[i].id)
    && after.corrections[i] ==
         Correction(after.corrections[i].id, None, None, None, if skip then Skipped else Rejected)
  }

  lemma {:induction false} BulkEmpties(db: Db, issues: seq<Id>, skip: bool, i: Id)
    requires i in issues && forall j :: j in issues ==> j in db.issues
    ensures IsEmptied(db, BulkApply(db, issues, skip), i, skip)
    decreases |issues|
  {
    var j, rest := issues[0], issues[1..];
    assert j in issues && issues == [j] + rest;
    var one := BulkOne(db, j, skip);
    BulkOneKeys(db, j, skip);
    BulkOneFrame(db, j, skip);
    BulkApplyFrame(one, rest, skip);
    OneIsEmptied(db, j, skip);
    hide BulkOne, BulkApply;
    assert BulkApply(db, issues, skip) == BulkApply(one, rest, skip) by { BulkUnfolds(db, issues, skip); }
    if i in rest {
      BulkEmpties(one, rest, skip, i);
      assert i != j ==> SameIssue(db, one, i);
    } else {
      assert SameIssue(one, BulkApply(one, rest, skip), i);
    }
  }

  lemma BulkUnfolds(db: Db, issues: seq<Id>, skip: bool)
    requires issues != [] && forall j :: j in issues ==> j in db.issues
    ensures forall j :: j in issues[1..] ==> j in BulkOne(db, issues[0], skip).issues
    ensures BulkApply(db, issues, skip) == BulkApply(BulkOne(db, issues[0], skip), issues[1..], skip)
  {
  }

  lemma OneIsEmptied(db: Db, i: Id, skip: bool)
    requires i in db.issues
    ensures IsEmptied(db, BulkOne(db, i, skip), i, skip)
  {
  }

  // --- what the decisions of a history make of a request ---------------------------------------------

  /** The accepted decisions of a history, in their order, as they were given. */
  function Given(db: Db, actions: seq<Action>): seq<Decision> {
    if actions == [] then []
    else
      var before, a := actions[..|actions| - 1], actions[|actions| - 1];
      Given(db, before) + GivenBy(Perform(db, before), a)
  }

  function GivenBy(db: Db, a: Action): seq<Decision> {
    if a.DoDecide? && Step(db, a).error.None? then
      [Decision(a.request, a.verdict, set i | i in a.decidedIssues)]
    else []
  }

  /** Those are the decisions stored, in that order, after those stored before. */
  lemma {:induction false} DecisionsAreGiven(db: Db, actions: seq<Action>)
    ensures Perform(db, actions).decisions == db.decisions + Given(db, actions)
    decreases |actions|
  {
    if actions != [] {
      var n := |actions| - 1;
      var before, a := actions[..n], actions[n];
      assert actions[..n + 1] == actions;
      DecisionsAreGiven(db, before);
      PerformNext(db, actions, n);
      StepDecides(Perform(db, before), a);
      hide Perform, Step, GivenBy;
    }
  }

  lemma StepDecides(db: Db, a: Action)
    ensures Step(db, a).db.decisions == db.decisions + GivenBy(db, a)
  {
    match a
    case DoDecide(r, verdict, issues) =>
      if Step(db, a).error.None? {
        DecideStores(db, r, verdict, issues, set i | i in issues);
      } else {
        RefusedStepsChangeNothing(db, a);
      }
      hide Step;
    case _ => OtherStepsLeaveDecisions(db, a);
  }

  lemma OtherStepsLeaveDecisions(db: Db, a: Action)
    requires !a.DoDecide?
    ensures Step(db, a).db.decisions == db.decisions
  {
    hide AddIssues, AddDrafts, BulkApply, BulkError, Targets, OpenRequests, ResolvedScope, RecordCount, IsBlank, Select;
    match a
    case DoCreate(_, refs) =>
      AddIssuesFrame(db.(runs := db.runs[db.nextId := DraftRun], nextId := db.nextId + 1), db.nextId, refs);
    case DoGenerate(run, drafts) =>
      if run in db.runs {
        var begun := if db.runs[run] == DraftRun then db.(runs := db.runs[run := InReview]) else db;
        AddDraftsFrame(begun, Targets(db, run), drafts);
      }
    case DoBulk(run, issues, skip) =>
      if Bulk(db, run, issues, skip).error.None? {
        BulkErrorNone(db, issues);
        BulkApplyFrame(db, issues, skip);
      }
    case _ =>
  }

  /**
    What decisions make of a request: pending before the first on it, partially approved until they name every issue,
    then approved if all of them approve and refused otherwise.
  */
  ghost predicate IsVerdictOf(status: RequestStatus, given: seq<Decision>, r: Id, scope: set<Id>) {
    && (status == Pending <==> forall d :: d in given ==> d.request != r)
    && (status in {Approved, Refused} <==> AreNamed(scope, given, r))
    && (status == Approved ==> forall d :: d in given && d.request == r ==> d.verdict == Approve)
    && (status == Refused ==> exists d :: d in given && d.request == r && d.verdict == Refuse)
  }

  ghost predicate AreNamed(scope: set<Id>, given: seq<Decision>, r: Id) {
    forall i :: i in scope ==> exists d :: d in given && d.request == r && i in d.issues
  }

  /** A request's status is the verdict of the actions performed from empty tables, while its ledger stands. */
  lemma StatusIsTheVerdict(actions: seq<Action>, r: Id, scope: set<Id>)
    requires Ledger(Perform(EMPTY, actions), r, scope)
    ensures IsVerdictOf(Perform(EMPTY, actions).requests[r].status, Given(EMPTY, actions), r, scope)
  {
    DecisionsAreGiven(EMPTY, actions);
    LedgerVerdict(Perform(EMPTY, actions), r, scope);
    assert Perform(EMPTY, actions).decisions == Given(EMPTY, actions);
    hide Perform, Given, Ledger, IsVerdictOf;
  }

  lemma LedgerVerdict(db: Db, r: Id, scope: set<Id>)
    requires Ledger(db, r, scope)
    ensures IsVerdictOf(db.requests[r].status, db.decisions, r, scope)
  {
    hide ResolvedScope, DecisionsPartition;
    EmptyDifference(scope, Decided(db.decisions, r));
    NamedIffDecided(db.decisions, r, scope);
    hide Decided, AreNamed;
    if forall d :: d in db.decisions ==> d.request != r { NoDecisionsYet(db.decisions, r); }
  }

  lemma NamedIffDecided(decisions: seq<Decision>, r: Id, scope: set<Id>)
    ensures AreNamed(scope, decisions, r) <==> scope <= Decided(decisions, r)
  {
  }

  /** After an accepted refusal the request is never approved while its ledger stands. */
  lemma RefusalIsFinal(before: seq<Action>, r: Id, issues: seq<Id>, after: seq<Action>, scope: set<Id>)
    requires Step(Perform(EMPTY, before), DoDecide(r, Refuse, issues)).error.None?
    requires Ledger(Perform(EMPTY, before + [DoDecide(r, Refuse, issues)] + after), r, scope)
    ensures Perform(EMPTY, before + [DoDecide(r, Refuse, issues)] + after).requests[r].status
              in {PartiallyApproved, Refused}
  {
    var a := DoDecide(r, Refuse, issues);
    var actions := before + [a] + after;
    StatusIsTheVerdict(actions, r, scope);
    assert actions[..|before|] == before && actions[|before|] == a;
    GivenStays(EMPTY, actions, |before|);
    var d := Decision(r, Refuse, set i | i in issues);
    assert GivenBy(Perform(EMPTY, before), a) == [d];
    hide Perform, Given, GivenBy, Ledger, Step, AreNamed;
    assert d in Given(EMPTY, actions) && d.request == r && d.verdict == Refuse;
  }

  lemma {:induction false} GivenStays(db: Db, actions: seq<Action>, k: nat)
    requires k < |actions|
    ensures forall d :: d in GivenBy(Perform(db, actions[..k]), actions[k]) ==> d in Given(db, actions)
    decreases |actions|
  {
    hide Perform, GivenBy;
    var n := |actions| - 1;
    if k < n {
      assert actions[..n][..k] == actions[..k];
      GivenStays(db, actions[..n], k);
    }
  }

  // --- why a step is refused -----------------------------------------------------------------------------------------

  /** The run of the issue is frozen. */
  ghost predicate IsFrozen(db: Db, i: Id)
    requires i in db.issues
  {
    db.issues[i].run in db.runs && db.runs[db.issues[i].run] == ReadyForApproval
  }

  /** A decision is refused for the first of: no such issue, a frozen run, a settled issue, a blank value. */
  lemma DecisionRefusals(db: Db, a: Action)
    requires IsDecisionAction(a)
    ensures Step(db, a).error == Some(NotFound) <==> forall i :: !IsAbout(db, a, i)
    ensures forall i :: IsAbout(db, a, i) ==>
      var error := Step(db, a).error;
      if IsFrozen(db, i) then error == Some(WrongStatus)
      else if !IsDecidable(db, i) then error == Some(AlreadyDecided)
      else if !GivesText(db, a) then error == Some(EmptyValue)
      else error == None
  {
    forall i | IsAbout(db, a, i)
      ensures var error := Step(db, a).error;
        if IsFrozen(db, i) then error == Some(WrongStatus)
        else if !IsDecidable(db, i) then error == Some(AlreadyDecided)
        else if !GivesText(db, a) then error == Some(EmptyValue)
        else error == None
    {
      RefusalOn(db, a, i);
    }
    if forall i :: !IsAbout(db, a, i) { NoIssueIsNotFound(db, a); }
    hide Step, IsDecidable, GivesText, IsFrozen, IsAbout;
  }

  lemma RefusalOn(db: Db, a: Action, i: Id)
    requires IsDecisionAction(a) && IsAbout(db, a, i)
    ensures var error := Step(db, a).error;
      if IsFrozen(db, i) then error == Some(WrongStatus)
      else if !IsDecidable(db, i) then error == Some(AlreadyDecided)
      else if !GivesText(db, a) then error == Some(EmptyValue)
      else error == None
  {
    if a.DoAccept? { BlankIffNoText(db.suggestions[a.suggestion].value); }
    if a.DoEdit? || a.DoCorrect? { BlankIffNoText(a.value); }
    hide HasText, Upsert, Select, SetStatus, Strip;
  }

  lemma NoIssueIsNotFound(db: Db, a: Action)
    requires IsDecisionAction(a) && forall i :: !IsAbout(db, a, i)
    ensures Step(db, a).error == Some(NotFound)
  {
    hide IsBlank, Upsert, Select, SetStatus, Guard;
    if a.DoAccept? || a.DoEdit? || a.DoReject? {
      if a.suggestion in db.suggestions { assert !IsAbout(db, a, db.suggestions[a.suggestion].issue); }
    } else {
      assert !IsAbout(db, a, a.issue);
    }
  }

  /** A submit is refused for the first of: no such run, a run not in review, open requests, nothing with a value. */
  lemma SubmitRefusals(db: Db, run: Id)
    ensures var error := Step(db, DoSubmit(run)).error;
      if run !in db.runs then error == Some(NotFound)
      else if db.runs[run] != InReview then error == Some(WrongStatus)
      else if exists p, q :: p != q && IsOpenOn(db, run, p) && IsOpenOn(db, run, q) then error == Some(MultipleRows)
      else if exists p :: IsOpenOn(db, run, p) then error == Some(AlreadyPending)
      else if forall i :: !HasValue(db, run, i) then error == Some(NothingResolved)
      else error == None
  {
    OpenIffNone(db, run);
    TwoOpen(db, run);
    ScopeIffValue(db, run);
    hide ResolvedScope, OpenRequests, RecordCount, HasValue, IsOpenOn;
  }

  lemma TwoOpen(db: Db, run: Id)
    ensures |OpenRequests(db, run)| > 1 <==> exists p, q :: p != q && IsOpenOn(db, run, p) && IsOpenOn(db, run, q)
  {
    var open := OpenRequests(db, run);
    forall r ensures r in open <==> IsOpenOn(db, run, r) { }
    hide OpenRequests, IsOpenOn;
    if |open| > 1 {
      var p :| p in open;
      var rest := open - {p};
      assert |rest| == |open| - 1;
      var q :| q in rest;
      assert q in open && q != p;
    }
    if p, q :| p != q && IsOpenOn(db, run, p) && IsOpenOn(db, run, q) {
      assert {p, q} <= open;
      assert open - {p, q} + {p, q} == open;
      assert |open| == |open - {p, q}| + |{p, q}|;
    }
  }

  /** A decision on a request is refused for a request that is not there or for issues that do not remain. */
  lemma RequestRefusals(db: Db, r: Id, verdict: Verdict, issues: seq<Id>)
    ensures var error := Step(db, DoDecide(r, verdict, issues)).error;
      if r !in db.requests then error == Some(NotFound)
      else if IsAllowed(db, DoDecide(r, verdict, issues)) then error == None else error == Some(NotInScope)
  {
    DecideAllowed(db, r, verdict, issues);
    hide IsAllowed, Remaining, ToIds, Recompute;
  }

  /** An archive is refused for the first of: no such run, an archived run, open requests; a restore likewise. */
  lemma ArchiveRefusals(db: Db, run: Id)
    ensures var error := Step(db, DoArchive(run)).error;
      if run !in db.runs then error == Some(NotFound)
      else if db.runs[run] == Archived then error == Some(WrongStatus)
      else if exists p, q :: p != q && IsOpenOn(db, run, p) && IsOpenOn(db, run, q) then error == Some(MultipleRows)
      else if exists p :: IsOpenOn(db, run, p) then error == Some(WrongStatus)
      else error == None
    ensures var error := Step(db, DoRestore(run)).error;
      if run !in db.runs then error == Some(NotFound)
      else if db.runs[run] != Archived then error == Some(WrongStatus)
      else error == None
  {
    OpenIffNone(db, run);
    TwoOpen(db, run);
    hide OpenRequests, IsOpenOn;
  }
}
