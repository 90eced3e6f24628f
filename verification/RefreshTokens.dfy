/** Rotate-on-use refresh tokens: single Redis commands interleaved by concurrent callers, and whole methods in turn. */
module RefreshTokens {
  import opened Collections

  type Jti = nat
  type User = nat
  type Caller = nat

  datatype Token = Token(user: User, expires: nat)
  datatype Listing = Listing(jtis: set<Jti>, expires: nat)

  /** Redis: one hash per token, one set of token ids per user, each with its expiry. */
  datatype Store = Store(tokens: map<Jti, Token>, listings: map<User, Listing>)

  // --- commands --------------------------------------------------------------------------

  /** The transaction of `issue`: HSET, EXPIRE, SADD, EXPIRE. */
  function Put(st: Store, jti: Jti, user: User, until: nat): Store {
    var listed := if user in st.listings then st.listings[user].jtis else {};
    Store(st.tokens[jti := Token(user, until)], st.listings[user := Listing(listed + {jti}, until)])
  }

  function DelTokens(st: Store, jtis: set<Jti>): Store {
    st.(tokens := st.tokens - jtis)
  }

  /** SREM; an emptied set is no key any more. */
  function Unlist(st: Store, user: User, jti: Jti): Store {
    if user !in st.listings then st
    else
      var rest := st.listings[user].jtis - {jti};
      if rest == {} then st.(listings := st.listings - {user})
      else st.(listings := st.listings[user := st.listings[user].(jtis := rest)])
  }

  function DelListing(st: Store, user: User): Store {
    st.(listings := st.listings - {user})
  }

  function Members(st: Store, user: User): set<Jti> {
    if user in st.listings then st.listings[user].jtis else {}
  }

  /** What is left of the keys at a time. */
  function Purge(st: Store, now: nat): Store {
    Store(map j | j in st.tokens && now < st.tokens[j].expires :: st.tokens[j],
          map u | u in st.listings && now < st.listings[u].expires :: st.listings[u])
  }

  /** Every live token is in its owner's set, which does not expire before it, and in no other set. */
  ghost predicate Listed(st: Store) {
    && (forall j :: j in st.tokens ==>
          var t := st.tokens[j];
          t.user in st.listings && j in st.listings[t.user].jtis && t.expires <= st.listings[t.user].expires)
    && (forall j, u :: j in st.tokens && u in st.listings && j in st.listings[u].jtis ==> st.tokens[j].user == u)
  }

  /** A token id that Redis has never seen. */
  ghost predicate IsFresh(st: Store, jti: Jti) {
    jti !in st.tokens && forall u :: u in st.listings ==> jti !in st.listings[u].jtis
  }

  ghost predicate ExpireBy(st: Store, limit: nat) {
    forall j :: j in st.tokens ==> st.tokens[j].expires <= limit
  }

  lemma PutKeepsListed(st: Store, jti: Jti, user: User, until: nat)
    requires Listed(st) && ExpireBy(st, until) && IsFresh(st, jti)
    ensures Listed(Put(st, jti, user, until)) && ExpireBy(Put(st, jti, user, until), until)
  {
  }

  lemma PurgeKeepsListed(st: Store, now: nat)
    requires Listed(st)
    ensures Listed(Purge(st, now))
  {
  }

  lemma RemovalKeepsListed(st: Store, jti: Jti, user: User)
    requires Listed(st)
    ensures Listed(Unlist(DelTokens(st, {jti}), user, jti))
  {
  }

  lemma SweepKeepsListed(st: Store, user: User)
    requires Listed(st)
    ensures Listed(DelListing(DelTokens(st, Members(st, user)), user))
    ensures forall j :: j in DelTokens(st, Members(st, user)).tokens <==> j in st.tokens && st.tokens[j].user != user
  {
  }

  // --- whole methods, one after the other -----------------------------------------------------

  class RefreshTokenStore {
    var store: Store
    var now: nat
    const ttl: nat

    ghost predicate Valid()
      reads this
    {
      Listed(store) && ExpireBy(store, now + ttl)
    }

    constructor (ttl: nat)
      ensures Valid() && store == Store(map[], map[]) && this.ttl == ttl
    {
      store, now, this.ttl := Store(map[], map[]), 0, ttl;
    }

    /** The random token id is a parameter. */
    method Issue(user: User, jti: Jti)
      requires Valid() && IsFresh(store, jti)
      modifies this`store
      ensures Valid() && store == Put(old(store), jti, user, now + ttl)
    {
      PutKeepsListed(store, jti, user, now + ttl);
      store := Put(store, jti, user, now + ttl);
    }

    /** The owner of a live token, which is gone afterwards. */
    method Consume(jti: Jti) returns (user: Option<User>)
      requires Valid()
      modifies this`store
      ensures Valid() && jti !in store.tokens
      ensures user == if jti in old(store).tokens then Some(old(store).tokens[jti].user) else None
      ensures store == if user.None? then old(store) else Unlist(DelTokens(old(store), {jti}), user.value, jti)
    {
      if jti !in store.tokens { return None; }
      var owner := store.tokens[jti].user;
      RemovalKeepsListed(store, jti, owner);
      store := DelTokens(store, {jti});
      store := Unlist(store, owner, jti);
      user := Some(owner);
    }

    /**
      Logout passes the id found in the submitted token and the current user, who need not be the token's owner. The
      token goes whoever owns it, an owner's listing only if the owner is that user; every live token stays listed.
    */
    method Revoke(jti: Jti, user: User)
      requires Valid()
      modifies this`store
      ensures Valid() && store == Unlist(DelTokens(old(store), {jti}), user, jti)
      ensures store.tokens == old(store).tokens - {jti}
      ensures forall u :: u != user ==> Members(store, u) == Members(old(store), u)
      ensures Members(store, user) == Members(old(store), user) - {jti}
    {
      RemovalKeepsListed(store, jti, user);
      store := DelTokens(store, {jti});
      store := Unlist(store, user, jti);
    }

    /** No token of the user is left, and no other user's token is touched. */
    method RevokeAllForUser(user: User)
      requires Valid()
      modifies this`store
      ensures Valid() && user !in store.listings
      ensures forall j :: j in store.tokens <==> j in old(store).tokens && old(store).tokens[j].user != user
      ensures forall j :: j in store.tokens ==> store.tokens[j] == old(store).tokens[j]
    {
      SweepKeepsListed(store, user);
      var jtis := Members(store, user);
      if jtis != {} { store := DelTokens(store, jtis); }
      store := DelListing(store, user);
    }

    /** Time passes, and Redis drops what has expired. */
    method Tick(seconds: nat)
      requires Valid()
      modifies this
      ensures Valid() && now == old(now) + seconds && store == Purge(old(store), now)
    {
      PurgeKeepsListed(store, now + seconds);
      now := now + seconds;
      store := Purge(store, now);
    }
  }

  // --- interleaved commands -----------------------------------------------------------------------

  /** Where one call of `consume` is. */
  datatype Phase =
    | Holding(jti: Jti, user: User)
    | Won(jti: Jti, user: User)
    | Returned(jti: Jti, owner: Option<User>)

  datatype Fate = Consumed | Revoked | Expired

  /** Redis, the clock, the calls in progress, and what became of every token ever issued. */
  datatype System = System(store: Store, now: nat, ttl: nat, calls: map<Caller, Phase>, sweeps: map<Caller, set<Jti>>,
                           issued: map<Jti, User>, fates: map<Jti, Fate>)

  /** One command of one caller, or the passing of time. */
  datatype Event =
    | DoIssue(jti: Jti, user: User)
    | DoHget(caller: Caller, jti: Jti)
    | DoDel(caller: Caller)
    | DoSrem(caller: Caller)
    | DoRevokeDel(jti: Jti)
    | DoRevokeSrem(jti: Jti, user: User)
    | DoSmembers(caller: Caller, user: User)
    | DoSweepDel(caller: Caller)
    | DoDelListing(user: User)
    | DoTick(seconds: nat)

  function Start(ttl: nat): System {
    System(Store(map[], map[]), 0, ttl, map[], map[], map[], map[])
  }

  /** Tokens leave the store with their fate recorded. */
  function Remove(s: System, jtis: set<Jti>, fate: Fate): System {
    s.(store := DelTokens(s.store, jtis), fates := s.fates + map j | j in jtis && j in s.store.tokens :: fate)
  }

  /** A command that is not the caller's next one leaves the system as it is. */
  function Step(s: System, e: Event): System {
    match e
    case DoIssue(jti, user) =>
      if jti in s.issued then s
      else s.(store := Put(s.store, jti, user, s.now + s.ttl), issued := s.issued[jti := user])
    case DoHget(c, jti) =>
      if c in s.calls then s
      else if jti in s.store.tokens then s.(calls := s.calls[c := Holding(jti, s.store.tokens[jti].user)])
      else s.(calls := s.calls[c := Returned(jti, None)])
    case DoDel(c) =>
      if c !in s.calls || !s.calls[c].Holding? then s
      else
        var call := s.calls[c];
        if call.jti !in s.store.tokens then s.(calls := s.calls[c := Returned(call.jti, None)])
        else Remove(s, {call.jti}, Consumed).(calls := s.calls[c := Won(call.jti, call.user)])
    case DoSrem(c) =>
      if c !in s.calls || !s.calls[c].Won? then s
      else
        var call := s.calls[c];
        s.(store := Unlist(s.store, call.user, call.jti), calls := s.calls[c := Returned(call.jti, Some(call.user))])
    case DoRevokeDel(jti) => Remove(s, {jti}, Revoked)
    case DoRevokeSrem(jti, user) => s.(store := Unlist(s.store, user, jti))
    case DoSmembers(c, user) => s.(sweeps := s.sweeps[c := Members(s.store, user)])
    case DoSweepDel(c) => if c !in s.sweeps then s else Remove(s, s.sweeps[c], Revoked)
    case DoDelListing(user) => s.(store := DelListing(s.store, user))
    case DoTick(seconds) =>
      var now := s.now + seconds;
      s.(store := Purge(s.store, now), now := now,
         fates := s.fates + map j | j in s.store.tokens && now >= s.store.tokens[j].expires :: Expired)
  }

  function Run(s: System, events: seq<Event>): System
    decreases |events|
  {
    if events == [] then s else Run(Step(s, events[0]), events[1..])
  }

  /** The call deleted the token itself. */
  predicate HasWon(s: System, c: Caller, jti: Jti) {
    c in s.calls && s.calls[c].jti == jti && (s.calls[c].Won? || (s.calls[c].Returned? && s.calls[c].owner.Some?))
  }

  /** Every issued token is live or has met exactly one fate. */
  ghost predicate Accounted(s: System) {
    && (forall j :: j in s.issued <==> j in s.store.tokens || j in s.fates)
    && (forall j :: j in s.store.tokens ==> j !in s.fates && s.store.tokens[j].user == s.issued[j])
  }

  /** What a call knows of the token's owner is true. */
  ghost predicate OwnersAreTrue(s: System) {
    forall c :: c in s.calls ==>
      match s.calls[c]
      case Holding(j, u) => j in s.issued && s.issued[j] == u
      case Won(j, u) => j in s.issued && s.issued[j] == u
      case Returned(j, owner) => owner.Some? ==> j in s.issued && s.issued[j] == owner.value
  }

  /** A token is consumed exactly when one call has won it, and then no other has. */
  ghost predicate WinnersAreUnique(s: System) {
    && (forall c, j :: HasWon(s, c, j) ==> j in s.fates && s.fates[j] == Consumed)
    && (forall j :: j in s.fates && s.fates[j] == Consumed ==> exists c :: HasWon(s, c, j))
    && (forall c, d, j :: HasWon(s, c, j) && HasWon(s, d, j) ==> c == d)
  }

  ghost predicate Inv(s: System) {
    Accounted(s) && OwnersAreTrue(s) && WinnersAreUnique(s)
  }

  lemma StepKeeps(s: System, e: Event)
    requires Inv(s)
    ensures Inv(Step(s, e))
  {
    match e
    case DoIssue(jti, user) => IssueKeeps(s, jti, user);
    case DoHget(c, jti) => HgetKeeps(s, c, jti);
    case DoDel(c) => DelKeeps(s, c);
    case DoSrem(c) => SremKeeps(s, c);
    case DoRevokeDel(jti) => RemoveKeeps(s, {jti});
    case DoSweepDel(c) => if c in s.sweeps { RemoveKeeps(s, s.sweeps[c]); }
    case DoTick(seconds) => TickKeeps(s, seconds);
    case DoRevokeSrem(jti, user) => OnlyListings(s, Step(s, e));
    case DoSmembers(c, user) => OnlyListings(s, Step(s, e));
    case DoDelListing(user) => OnlyListings(s, Step(s, e));
  }

  lemma OnlyListings(s: System, t: System)
    requires Inv(s) && t.store.tokens == s.store.tokens && t.calls == s.calls && t.issued == s.issued
    requires t.fates == s.fates
    ensures Inv(t)
  {
    SameWinners(s, t);
  }

  lemma SameWinners(s: System, t: System)
    requires s.calls == t.calls
    ensures forall c, j :: HasWon(s, c, j) <==> HasWon(t, c, j)
  {
  }

  /** What one command may do to issued ids, fates and tokens. */
  ghost predicate Accounts(s: System, t: System, e: Event) {
    && Accounted(t)
    && (forall j :: j in s.issued ==> j in t.issued && t.issued[j] == s.issued[j])
    && (forall j :: j in s.fates ==> j in t.fates && t.fates[j] == s.fates[j])
    && (forall j :: j in t.fates && t.fates[j] == Consumed ==> j in s.fates || e.DoDel?)
    && (forall j :: j in t.issued ==> j in s.issued || (e.DoIssue? && e.jti == j && t.issued[j] == e.user))
    && (e.DoIssue? ==> e.jti in t.issued)
  }

  lemma StepAccounts(s: System, e: Event)
    requires Accounted(s)
    ensures Accounts(s, Step(s, e), e)
  {
    hide Accounts, Accounted, Put, Purge, Unlist, Remove;
    match e
    case DoIssue(jti, user) => IssueAccounts(s, jti, user);
    case DoTick(seconds) => TickAccounts(s, seconds);
    case DoDel(c) => DelAccounts(s, c);
    case DoRevokeDel(jti) => RemoveAccounts(s, {jti}, Revoked, e);
    case DoSweepDel(c) => SweepAccounts(s, c);
    case _ => OtherAccounts(s, e);
  }

  lemma IssueAccounts(s: System, jti: Jti, user: User)
    requires Accounted(s)
    ensures Accounts(s, Step(s, DoIssue(jti, user)), DoIssue(jti, user))
  {
  }

  lemma TickAccounts(s: System, seconds: nat)
    requires Accounted(s)
    ensures Accounts(s, Step(s, DoTick(seconds)), DoTick(seconds))
  {
  }

  lemma RemoveAccounts(s: System, jtis: set<Jti>, fate: Fate, e: Event)
    requires Accounted(s) && !e.DoIssue? && (fate == Consumed ==> e.DoDel?)
    ensures Accounts(s, Remove(s, jtis, fate), e)
  {
  }

  lemma DelAccounts(s: System, c: Caller)
    requires Accounted(s)
    ensures Accounts(s, Step(s, DoDel(c)), DoDel(c))
  {
    if c in s.calls && s.calls[c].Holding? { RemoveAccounts(s, {s.calls[c].jti}, Consumed, DoDel(c)); }
  }

  lemma SweepAccounts(s: System, c: Caller)
    requires Accounted(s)
    ensures Accounts(s, Step(s, DoSweepDel(c)), DoSweepDel(c))
  {
    if c in s.sweeps { RemoveAccounts(s, s.sweeps[c], Revoked, DoSweepDel(c)); }
  }

  lemma OtherAccounts(s: System, e: Event)
    requires Accounted(s)
    requires e.DoHget? || e.DoSrem? || e.DoRevokeSrem? || e.DoSmembers? || e.DoDelListing?
    ensures Accounts(s, Step(s, e), e)
  {
    var t := Step(s, e);
    assert t.store.tokens == s.store.tokens && t.issued == s.issued && t.fates == s.fates;
    hide Step;
  }

  /** No call has moved, and only tokens that were not consumed have met a new fate. */
  lemma WinnersStay(s: System, t: System)
    requires WinnersAreUnique(s) && t.calls == s.calls
    requires forall j :: j in s.fates ==> j in t.fates && t.fates[j] == s.fates[j]
    requires forall j :: j in t.fates ==> j in s.fates || t.fates[j] != Consumed
    ensures WinnersAreUnique(t)
  {
    SameWinners(s, t);
    hide HasWon;
  }

  lemma OwnersStay(s: System, t: System)
    requires OwnersAreTrue(s) && t.calls == s.calls
    requires forall j :: j in s.issued ==> j in t.issued && t.issued[j] == s.issued[j]
    ensures OwnersAreTrue(t)
  {
  }

  /** A command that moves no call keeps everything that follows from its account of the tokens. */
  lemma AccountsKeep(s: System, t: System, e: Event)
    requires Inv(s) && Accounts(s, t, e) && !e.DoDel? && t.calls == s.calls
    ensures Inv(t)
  {
    OwnersStay(s, t);
    WinnersStay(s, t);
    hide OwnersAreTrue, WinnersAreUnique;
  }

  lemma IssueKeeps(s: System, jti: Jti, user: User)
    requires Inv(s)
    ensures Inv(Step(s, DoIssue(jti, user)))
  {
    hide Accounts;
    IssueAccounts(s, jti, user);
    hide Inv;
    AccountsKeep(s, Step(s, DoIssue(jti, user)), DoIssue(jti, user));
  }

  lemma RemoveKeeps(s: System, jtis: set<Jti>)
    requires Inv(s)
    ensures Inv(Remove(s, jtis, Revoked))
  {
    hide Accounts;
    RemoveAccounts(s, jtis, Revoked, DoRevokeDel(0));
    hide Inv;
    AccountsKeep(s, Remove(s, jtis, Revoked), DoRevokeDel(0));
  }

  lemma TickKeeps(s: System, seconds: nat)
    requires Inv(s)
    ensures Inv(Step(s, DoTick(seconds)))
  {
    hide Accounts;
    TickAccounts(s, seconds);
    hide Inv;
    AccountsKeep(s, Step(s, DoTick(seconds)), DoTick(seconds));
  }

  /** A call moves on to a phase in which it has won nothing new. */
  lemma PhaseKeeps(s: System, c: Caller, phase: Phase)
    requires Inv(s) && (c in s.calls ==> s.calls[c].Holding?)
    requires phase.Holding? || (phase.Returned? && phase.owner.None?)
    requires phase.Holding? ==> phase.jti in s.issued && s.issued[phase.jti] == phase.user
    ensures Inv(s.(calls := s.calls[c := phase]))
  {
    var t := s.(calls := s.calls[c := phase]);
    forall d, j ensures HasWon(s, d, j) <==> HasWon(t, d, j) { }
    assert WinnersAreUnique(t) by { hide HasWon; }
    hide WinnersAreUnique;
  }

  lemma HgetKeeps(s: System, c: Caller, jti: Jti)
    requires Inv(s)
    ensures Inv(Step(s, DoHget(c, jti)))
  {
    if c !in s.calls {
      if jti in s.store.tokens { PhaseKeeps(s, c, Holding(jti, s.store.tokens[jti].user)); }
      else { PhaseKeeps(s, c, Returned(jti, None)); }
    }
  }

  lemma DelKeeps(s: System, c: Caller)
    requires Inv(s)
    ensures Inv(Step(s, DoDel(c)))
  {
    if c in s.calls && s.calls[c].Holding? {
      var call := s.calls[c];
      if call.jti !in s.store.tokens {
        PhaseKeeps(s, c, Returned(call.jti, None));
      } else {
        WinKeeps(s, c);
      }
    }
  }

  /** The DEL that finds the token: nobody can have won it before, and nobody can again. */
  lemma WinKeeps(s: System, c: Caller)
    requires Inv(s) && c in s.calls && s.calls[c].Holding? && s.calls[c].jti in s.store.tokens
    ensures Inv(Step(s, DoDel(c)))
  {
    var call, t := s.calls[c], Step(s, DoDel(c));
    forall d, j ensures HasWon(t, d, j) <==> HasWon(s, d, j) || (d == c && j == call.jti) { }
    assert Accounted(t) && OwnersAreTrue(t);
    assert WinnersAreUnique(t) by {
      hide HasWon;
      assert call.jti !in s.fates;
      forall j | j in t.fates && t.fates[j] == Consumed ensures exists d :: HasWon(t, d, j) {
        if j == call.jti { assert HasWon(t, c, j); } else { var d :| HasWon(s, d, j); assert HasWon(t, d, j); }
      }
    }
  }

  lemma SremKeeps(s: System, c: Caller)
    requires Inv(s)
    ensures Inv(Step(s, DoSrem(c)))
  {
    var t := Step(s, DoSrem(c));
    forall d, j ensures HasWon(s, d, j) <==> HasWon(t, d, j) { }
    hide HasWon;
  }

  /** Under any interleaving: fates are exclusive, winners unique, owners true. */
  lemma {:induction false} RunKeeps(s: System, events: seq<Event>)
    requires Inv(s)
    ensures Inv(Run(s, events))
    decreases |events|
  {
    if events != [] {
      StepKeeps(s, events[0]);
      hide Inv, Step;
      RunKeeps(Step(s, events[0]), events[1..]);
    }
  }

  /** From an empty store: no two calls win one token, and the owner a call returns is the one it was issued to. */
  lemma ConsumedAtMostOnce(ttl: nat, events: seq<Event>, c: Caller, d: Caller, jti: Jti)
    ensures var s := Run(Start(ttl), events);
      && (HasWon(s, c, jti) && HasWon(s, d, jti) ==> c == d)
      && (HasWon(s, c, jti) ==> jti !in s.store.tokens)
      && (HasWon(s, c, jti) && s.calls[c].Returned? ==> jti in s.issued && s.calls[c].owner == Some(s.issued[jti]))
  {
    var start := Start(ttl);
    assert Inv(start);
    RunKeeps(start, events);
    hide Run;
  }

  // --- what an interleaved sweep leaves ----------------------------------------------------------

  /** Whom a token is issued to by these events: the first issue of its id counts. */
  function IssuedTo(events: seq<Event>, jti: Jti): Option<User>
    decreases |events|
  {
    if events == [] then None
    else if events[0].DoIssue? && events[0].jti == jti then Some(events[0].user)
    else IssuedTo(events[1..], jti)
  }

  /**
    Over any run: what was issued stays issued, what has a fate keeps one, and new owners are those of the first issues.
  */
  lemma {:induction false} RunAccounts(s: System, events: seq<Event>)
    requires Accounted(s)
    ensures Accounted(Run(s, events))
    ensures forall j :: j in s.fates ==> j in Run(s, events).fates
    ensures forall j :: j in s.issued ==> j in Run(s, events).issued && Run(s, events).issued[j] == s.issued[j]
    ensures forall j :: j !in s.issued ==>
      (if j in Run(s, events).issued then Some(Run(s, events).issued[j]) else None) == IssuedTo(events, j)
    decreases |events|
  {
    if events != [] {
      StepAccounts(s, events[0]);
      assert Accounts(s, Step(s, events[0]), events[0]);
      hide Step, Accounted;
      RunAccounts(Step(s, events[0]), events[1..]);
    }
  }

  lemma {:induction false} RunAppend(s: System, a: seq<Event>, b: seq<Event>)
    ensures Run(s, a + b) == Run(Run(s, a), b)
    decreases |a|
  {
    if a == [] {
      assert a + b == b;
    } else {
      assert (a + b)[1..] == a[1..] + b;
      hide Step;
      RunAppend(Step(s, a[0]), a[1..], b);
    }
  }

  /** Until its next SMEMBERS a caller's sweep deletes the ids it has read. */
  lemma {:induction false} SweepRemembers(s: System, caller: Caller, events: seq<Event>)
    requires caller in s.sweeps && forall e :: e in events ==> !(e.DoSmembers? && e.caller == caller)
    ensures caller in Run(s, events).sweeps && Run(s, events).sweeps[caller] == s.sweeps[caller]
    decreases |events|
  {
    if events != [] {
      var e := events[0];
      assert e in events && events == [e] + events[1..];
      assert caller in Step(s, e).sweeps && Step(s, e).sweeps[caller] == s.sweeps[caller];
      hide Step;
      SweepRemembers(Step(s, e), caller, events[1..]);
    }
  }

  /** A sweep of one caller, with whatever commands of others before its DEL and before it deletes the listing. */
  function Sweep(caller: Caller, user: User, before: seq<Event>, after: seq<Event>): seq<Event> {
    [DoSmembers(caller, user)] + before + [DoSweepDel(caller)] + after + [DoDelListing(user)]
  }

  ghost predicate IsLiveOf(s: System, user: User, jti: Jti) {
    jti in s.store.tokens && s.store.tokens[jti].user == user
  }

  /**
    Which tokens of the user an interleaved sweep leaves, from any state: of the tokens issued before, those that were
    not listed when it started, and of the others those whose first issue in its window is to that user; in both cases
    unless they have met a fate. The user has no listing left.
  */
  lemma SweepLeavesExactly(s: System, caller: Caller, user: User, before: seq<Event>, after: seq<Event>, jti: Jti)
    requires Accounted(s)
    requires forall e :: e in before ==> !(e.DoSmembers? && e.caller == caller)
    ensures var t := Run(s, Sweep(caller, user, before, after));
      && user !in t.store.listings
      && (IsLiveOf(t, user, jti) <==>
            jti !in t.fates &&
            if jti in s.issued then s.issued[jti] == user && jti !in Members(s.store, user)
            else IssuedTo(before + after, jti) == Some(user))
  {
    hide *;
    var s1 := Step(s, DoSmembers(caller, user));
    var s2 := Run(s1, before);
    var s3 := Step(s2, DoSweepDel(caller));
    var s4 := Run(s3, after);
    SweepIsItsParts(s, caller, user, before, after);
    SweepStarts(s, caller, user);
    SweepRemembers(s1, caller, before);
    RunAccounts(s1, before);
    SweepDeletes(s2, caller);
    RunAccounts(s3, after);
    SweepEnds(s4, user);
    IssuedToAppend(before, after, jti);
    LiveIsUnfated(s4, user, jti);
    if jti in s.issued && jti in Members(s.store, user) {
      assert jti in s3.fates;
      assert jti in s4.fates;
    }
  }

  /**
    Started while every live token is listed, it leaves exactly the unfated tokens issued to the user in its window.
  */
  lemma SweepOfListedLeavesExactly(s: System, caller: Caller, user: User, before: seq<Event>, after: seq<Event>,
                                   jti: Jti)
    requires Accounted(s) && Listed(s.store)
    requires forall e :: e in before ==> !(e.DoSmembers? && e.caller == caller)
    ensures var t := Run(s, Sweep(caller, user, before, after));
      IsLiveOf(t, user, jti) <==>
        jti !in t.fates && jti !in s.issued && IssuedTo(before + after, jti) == Some(user)
  {
    hide *;
    SweepLeavesExactly(s, caller, user, before, after, jti);
    if jti in s.issued && s.issued[jti] == user && jti !in Members(s.store, user) {
      OldTokensAreSwept(s, user, jti);
      SweepKeepsFates(s, caller, user, before, after, jti);
    }
  }

  lemma SweepKeepsFates(s: System, caller: Caller, user: User, before: seq<Event>, after: seq<Event>, jti: Jti)
    requires Accounted(s) && jti in s.fates
    ensures jti in Run(s, Sweep(caller, user, before, after)).fates
  {
    hide *;
    RunAccounts(s, Sweep(caller, user, before, after));
  }

  lemma SweepStarts(s: System, caller: Caller, user: User)
    requires Accounted(s)
    ensures var t := Step(s, DoSmembers(caller, user));
      && Accounted(t) && t.issued == s.issued && t.fates == s.fates
      && caller in t.sweeps && t.sweeps[caller] == Members(s.store, user)
  {
    hide Members;
  }

  lemma SweepDeletes(s: System, caller: Caller)
    requires Accounted(s) && caller in s.sweeps
    ensures var t := Step(s, DoSweepDel(caller));
      && Accounted(t) && t.issued == s.issued
      && (forall j :: j in s.fates ==> j in t.fates)
      && (forall j :: j in s.sweeps[caller] && j in s.issued ==> j in t.fates)
  {
  }

  lemma SweepEnds(s: System, user: User)
    ensures var t := Step(s, DoDelListing(user));
      && t.store.tokens == s.store.tokens && t.fates == s.fates && user !in t.store.listings
      && forall j :: IsLiveOf(t, user, j) <==> IsLiveOf(s, user, j)
  {
  }

  lemma LiveIsUnfated(s: System, user: User, jti: Jti)
    requires Accounted(s)
    ensures IsLiveOf(s, user, jti) <==> jti in s.issued && s.issued[jti] == user && jti !in s.fates
  {
  }

  lemma OldTokensAreSwept(s: System, user: User, jti: Jti)
    requires Accounted(s) && Listed(s.store) && jti in s.issued
    ensures s.issued[jti] == user ==> jti in s.fates || jti in Members(s.store, user)
  {
  }

  lemma {:induction false} IssuedToAppend(a: seq<Event>, b: seq<Event>, jti: Jti)
    ensures IssuedTo(a + b, jti) == if IssuedTo(a, jti).Some? then IssuedTo(a, jti) else IssuedTo(b, jti)
    decreases |a|
  {
    if a == [] {
      assert a + b == b;
    } else {
      assert (a + b)[1..] == a[1..] + b;
      IssuedToAppend(a[1..], b, jti);
    }
  }

  lemma SweepIsItsParts(s: System, caller: Caller, user: User, before: seq<Event>, after: seq<Event>)
    ensures Run(s, Sweep(caller, user, before, after))
         == Step(Run(Step(Run(Step(s, DoSmembers(caller, user)), before), DoSweepDel(caller)), after),
                 DoDelListing(user))
  {
    hide Step;
    var a, b, c := [DoSmembers(caller, user)], [DoSweepDel(caller)], [DoDelListing(user)];
    RunAppend(s, a + before + b + after, c);
    RunAppend(s, a + before + b, after);
    RunAppend(s, a + before, b);
    RunAppend(s, a, before);
    assert a[1..] == [] && b[1..] == [] && c[1..] == [];
  }

  /** With nothing issued to the user in its window, a sweep leaves exactly the unfated tokens it could not see. */
  lemma UndisturbedSweepLeavesUnlisted(s: System, caller: Caller, user: User, before: seq<Event>, after: seq<Event>,
                                       jti: Jti)
    requires Accounted(s)
    requires forall e :: e in before ==> !(e.DoSmembers? && e.caller == caller)
    requires forall e :: e in before + after && e.DoIssue? ==> e.user != user
    ensures var t := Run(s, Sweep(caller, user, before, after));
      IsLiveOf(t, user, jti) <==> IsLiveOf(s, user, jti) && jti !in Members(s.store, user) && jti !in t.fates
  {
    SweepLeavesExactly(s, caller, user, before, after, jti);
    LiveIsUnfated(s, user, jti);
    hide Run, Sweep, Accounted, IsLiveOf, Members;
    IssuedIsAnEvent(before + after, jti);
    if jti in s.fates { SweepKeepsFates(s, caller, user, before, after, jti); }
  }

  /** So it leaves none if every live token was listed when it started. */
  lemma UndisturbedSweepLeavesNone(s: System, caller: Caller, user: User, before: seq<Event>, after: seq<Event>,
                                   jti: Jti)
    requires Accounted(s) && Listed(s.store)
    requires forall e :: e in before ==> !(e.DoSmembers? && e.caller == caller)
    requires forall e :: e in before + after && e.DoIssue? ==> e.user != user
    ensures !IsLiveOf(Run(s, Sweep(caller, user, before, after)), user, jti)
  {
    UndisturbedSweepLeavesUnlisted(s, caller, user, before, after, jti);
    LiveIsUnfated(s, user, jti);
    hide Run, Sweep, Accounted, IsLiveOf, Members;
    if jti in s.issued { OldTokensAreSwept(s, user, jti); }
  }

  lemma {:induction false} IssuedIsAnEvent(events: seq<Event>, jti: Jti)
    ensures IssuedTo(events, jti).Some? ==> DoIssue(jti, IssuedTo(events, jti).value) in events
    decreases |events|
  {
    if events != [] {
      IssuedIsAnEvent(events[1..], jti);
      assert events == [events[0]] + events[1..];
    }
  }

  /** A token once issued that no set lists and no pending sweep remembers. */
  ghost predicate OutOfReach(s: System, jti: Jti) {
    && jti in s.issued
    && (forall u :: jti !in Members(s.store, u))
    && (forall c :: c in s.sweeps ==> jti !in s.sweeps[c])
  }

  lemma StepLeavesOutOfReach(s: System, e: Event, jti: Jti)
    requires OutOfReach(s, jti)
    ensures OutOfReach(Step(s, e), jti)
  {
    forall u ensures jti !in Members(Step(s, e).store, u) {
      assert jti !in Members(s.store, u);
    }
  }

  lemma StepRevokesNotOutOfReach(s: System, e: Event, jti: Jti)
    requires OutOfReach(s, jti) && e != DoRevokeDel(jti)
    ensures jti in Step(s, e).fates && Step(s, e).fates[jti] == Revoked ==> jti in s.fates && s.fates[jti] == Revoked
  {
    hide Members, Put, Unlist, Purge;
  }

  /** No sweep ever revokes such a token: until it is revoked by its own id it can only be consumed or expire. */
  lemma NoSweepReaches(s: System, events: seq<Event>, jti: Jti)
    requires Accounted(s) && OutOfReach(s, jti) && jti in s.store.tokens && DoRevokeDel(jti) !in events
    ensures OutOfReach(Run(s, events), jti)
    ensures jti in Run(s, events).store.tokens
            || (jti in Run(s, events).fates && Run(s, events).fates[jti] in {Consumed, Expired})
  {
    RunLeavesOutOfReach(s, events, jti);
    RunAccounts(s, events);
    hide Run, OutOfReach;
  }

  lemma {:induction false} RunLeavesOutOfReach(s: System, events: seq<Event>, jti: Jti)
    requires Accounted(s) && OutOfReach(s, jti) && DoRevokeDel(jti) !in events
    ensures var t := Run(s, events);
      OutOfReach(t, jti) && (jti in t.fates && t.fates[jti] == Revoked ==> jti in s.fates && s.fates[jti] == Revoked)
    decreases |events|
  {
    if events != [] {
      assert events[0] in events && events == [events[0]] + events[1..];
      StepLeavesOutOfReach(s, events[0], jti);
      StepRevokesNotOutOfReach(s, events[0], jti);
      StepAccounts(s, events[0]);
      assert Accounts(s, Step(s, events[0]), events[0]);
      hide Step, OutOfReach, Accounted;
      RunLeavesOutOfReach(Step(s, events[0]), events[1..], jti);
    }
  }

  /** The order of commands that leaves a live token unlisted: it is issued between SMEMBERS and the listing's DEL. */
  function Race(user: User): seq<Event> {
    [DoSmembers(0, user), DoIssue(7, user), DoSweepDel(0), DoDelListing(user)]
  }

  /** Interleaved with an issue, a sweep leaves a live token out of reach of every later sweep, for example of this. */
  lemma SweepRacesWithIssue(user: User, ttl: nat)
    requires ttl > 0
    ensures var s := Run(Start(ttl), Race(user));
      && IsLiveOf(s, user, 7) && !Listed(s.store) && OutOfReach(s, 7)
      && IsLiveOf(Run(s, Sweep(1, user, [], [])), user, 7)
  {
    var start := Start(ttl);
    Four(start, DoSmembers(0, user), DoIssue(7, user), DoSweepDel(0), DoDelListing(user));
    var s := Run(start, Race(user));
    assert 7 in s.store.tokens && user !in s.store.listings;
    assert Sweep(1, user, [], []) == [DoSmembers(1, user), DoSweepDel(1), DoDelListing(user)];
    Three(s, DoSmembers(1, user), DoSweepDel(1), DoDelListing(user));
  }

  lemma Three(s: System, a: Event, b: Event, c: Event)
    ensures Run(s, [a, b, c]) == Step(Step(Step(s, a), b), c)
  {
    hide Step;
    assert [a, b, c][1..] == [b, c] && [b, c][1..] == [c] && [c][1..] == [];
    assert Run(Step(Step(s, a), b), [c]) == Step(Step(Step(s, a), b), c);
    assert Run(Step(s, a), [b, c]) == Run(Step(Step(s, a), b), [c]);
  }

  lemma Four(s: System, a: Event, b: Event, c: Event, d: Event)
    ensures Run(s, [a, b, c, d]) == Step(Step(Step(Step(s, a), b), c), d)
  {
    hide Step;
    assert [a, b, c, d][1..] == [b, c, d];
    Three(Step(s, a), b, c, d);
  }
}
