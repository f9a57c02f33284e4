/** What the run invariant gives when backends answer, and what logins and time do to it. */
module Convergence {
  import opened Frames
  import opened Reconcile
  import opened ReconcileRuns
  import opened Sequences
  import opened Store

  // ---- Backends that answer ----

  ghost predicate AllSettled(s: State) {
    s.settled.Keys == s.db.interfaces.Keys
  }

  lemma SyncOneKeys(s: State, i: Id, w: Weather)
    ensures SyncOne(s, i, w).0.db.interfaces.Keys == s.db.interfaces.Keys
    ensures SyncOne(s, i, w).0.db.order == s.db.order
    ensures Calm(w) && i in s.db.interfaces ==>
      SyncOne(s, i, w).1 && SyncOne(s, i, w).0.settled.Keys == s.settled.Keys + {i}
  {
    assert i in s.db.interfaces ==> s.db.interfaces.Keys + {i} == s.db.interfaces.Keys;
  }

  lemma IdsAppend(ids: seq<Id>)
    requires ids != []
    ensures Elems(ids) == Elems(ids[..|ids| - 1]) + {ids[|ids| - 1]}
  {
    var init := ids[..|ids| - 1];
    assert forall k :: 0 <= k < |init| ==> ids[k] == init[k];
  }

  lemma {:induction false} CalmEachSettles(s: State, ids: seq<Id>, w: Weather)
    requires Calm(w) && Elems(ids) <= s.db.interfaces.Keys
    ensures var s' := SyncEach(s, ids, w);
            s'.db.interfaces.Keys == s.db.interfaces.Keys && s'.settled.Keys == s.settled.Keys + Elems(ids)
  {
    if ids != [] {
      IdsAppend(ids);
      CalmEachSettles(s, ids[..|ids| - 1], w);
      assert ids[|ids| - 1] in Elems(ids);
      SyncOneKeys(SyncEach(s, ids[..|ids| - 1], w), ids[|ids| - 1], w);
    }
  }

  lemma {:induction false} CalmAllSettles(s: State, ids: seq<Id>, w: Weather)
    requires Calm(w) && Elems(ids) <= s.db.interfaces.Keys
    ensures var (s', failed) := SyncUntilFailure(s, ids, w);
            failed.None? && s'.db.interfaces.Keys == s.db.interfaces.Keys
                && s'.settled.Keys == s.settled.Keys + Elems(ids)
  {
    if ids != [] {
      IdsAppend(ids);
      CalmAllSettles(s, ids[..|ids| - 1], w);
      assert ids[|ids| - 1] in Elems(ids);
      SyncOneKeys(SyncUntilFailure(s, ids[..|ids| - 1], w).0, ids[|ids| - 1], w);
    }
  }

  function PlanIds(plan: Plan, order: seq<Id>): set<Id> {
    match plan
    case Nothing => {}
    case One(i) => {i}
    case Each(ids) => Elems(ids)
    case All => Elems(order)
    case TearDown(_, _) => {}
  }

  lemma CalmPerformSettles(s: State, plan: Plan, w: Weather)
    requires Calm(w) && PlanIds(plan, s.db.order) <= s.db.interfaces.Keys
    ensures var (s', ok) := Perform(s, plan, w);
            && ok
            && s'.db.interfaces.Keys == s.db.interfaces.Keys
            && s'.settled.Keys == s.settled.Keys + PlanIds(plan, s.db.order)
  {
    match plan
    case Nothing =>
    case One(i) => SyncOneKeys(s, i, w);
    case Each(ids) => CalmEachSettles(s, ids, w);
    case All => CalmAllSettles(s, s.db.order, w);
    case TearDown(_, _) =>
  }

  /** Planned interfaces exist after the write, and a new one is planned. */
  ghost predicate PlanFits(db: Db, db': Db, plan: Plan) {
    && PlanIds(plan, db.order) <= db'.interfaces.Keys
    && db'.interfaces.Keys <= db.interfaces.Keys + PlanIds(plan, db.order)
    && (plan.All? ==> db'.order == db.order)
  }

  lemma GroupPlanFits(env: Env, db: Db, op: Op)
    requires ForeignKeys(db) && Mutate(env, db, op).Ok?
    requires op.UpdateGroup? || op.DeleteGroup?
    ensures PlanFits(db, Mutate(env, db, op).value, PlanOf(db, op))
  {
    FilterMembers(db.order, Lists(db, op.id));
  }

  lemma DevicePlanFits(env: Env, db: Db, op: Op)
    requires ForeignKeys(db) && Mutate(env, db, op).Ok?
    requires op.RegeneratePeer? || op.DeletePeer?
    ensures PlanFits(db, Mutate(env, db, op).value, PlanOf(db, op))
  {
    var k := First(db.peers, WithId(op.id)).value;
    assert db.peers[k].interfaceId in db.interfaces;
  }

  lemma WholePlanFits(env: Env, db: Db, op: Op)
    requires ForeignKeys(db) && Mutate(env, db, op).Ok?
    requires op.SetBanned? || op.SetRevoked? || op.DeleteUser? || op.Restart?
    ensures PlanFits(db, Mutate(env, db, op).value, PlanOf(db, op))
  {
  }

  lemma PlannedExist(env: Env, db: Db, op: Op)
    requires ValidDb(db) && Mutate(env, db, op).Ok?
    ensures PlanFits(db, Mutate(env, db, op).value, PlanOf(db, op))
  {
    if op.UpdateGroup? || op.DeleteGroup? {
      GroupPlanFits(env, db, op);
    } else if op.RegeneratePeer? || op.DeletePeer? {
      DevicePlanFits(env, db, op);
    } else if op.CreateInterface? || op.UpdateInterface? || op.DeleteInterface? || op.Resync? || op.CreatePeer? {
    } else if op.SetBanned? || op.SetRevoked? || op.DeleteUser? || op.Restart? {
      WholePlanFits(env, db, op);
    }
  }

  lemma PlannedAre(db: Db, op: Op, i: Id)
    ensures Planned(db, op, i) <==> i in PlanIds(PlanOf(db, op), db.order)
  {
    var plan := PlanOf(db, op);
    assert plan.Each? ==> (i in plan.ids <==> i in Elems(plan.ids));
  }

  lemma WrittenSettles(s: State, db': Db, op: Op, plan: Plan)
    requires AllSettled(s) && PlanFits(s.db, db', plan)
    requires forall i :: Planned(s.db, op, i) <==> i in PlanIds(plan, s.db.order)
    ensures Written(s, db', op).settled.Keys + PlanIds(plan, s.db.order) == db'.interfaces.Keys
  {
  }

  lemma CalmWriteSettles(s: State, db': Db, op: Op, plan: Plan, w: Weather)
    requires AllSettled(s) && Calm(w) && plan == PlanOf(s.db, op) && PlanFits(s.db, db', plan)
    ensures var (s', ok) := Perform(Written(s, db', op), plan, w);
            ok && AllSettled(s')
  {
    forall i ensures Planned(s.db, op, i) <==> i in PlanIds(plan, s.db.order) {
      PlannedAre(s.db, op, i);
    }
    WrittenSettles(s, db', op, plan);
    assert PlanIds(plan, db'.order) == PlanIds(plan, s.db.order);
    CalmPerformSettles(Written(s, db', op), plan, w);
  }

  lemma CalmStepSettles(env: Env, s: State, op: Op, w: Weather)
    requires Inv(s) && AllSettled(s) && Calm(w)
    ensures AllSettled(Step(env, s, op, w).0)
    ensures Step(env, s, op, w).1 <==> Mutate(env, s.db, op).Ok?
  {
    if Mutate(env, s.db, op).Ok? {
      PlannedExist(env, s.db, op);
      CalmWriteSettles(s, Mutate(env, s.db, op).value, op, PlanOf(s.db, op), w);
    }
  }

  ghost predicate CalmRun(events: seq<Event>) {
    forall k :: 0 <= k < |events| ==> Calm(events[k].weather)
  }

  lemma {:induction false} CalmRunsSettle(env: Env, events: seq<Event>)
    requires FreshRun(env, INITIAL, events) && CalmRun(events)
    ensures Inv(Run(env, INITIAL, events)) && AllSettled(Run(env, INITIAL, events))
  {
    PushedIsPermittedAsOfLastSync(env, events);
    if events != [] {
      FreshRunPrefix(env, INITIAL, events);
      CalmRunsSettle(env, events[..|events| - 1]);
      var last := events[|events| - 1];
      CalmStepSettles(env, Run(env, INITIAL, events[..|events| - 1]), last.op, last.weather);
    }
  }

  // ---- Nobody logs in ----

  /** The facts differ from the present at most in the clock, which may be behind. */
  ghost predicate Behind(db: Db, f: Facts) {
    && f.clock <= db.clock
    && f.claims == db.claims
    && f.live.Keys <= db.users.Keys
    && forall u :: u in f.live ==> f.live[u] == db.users[u].liveUntil
  }

  ghost predicate FactsBehind(s: State) {
    forall i :: i in s.settled ==> Behind(s.db, s.settled[i])
  }

  ghost predicate FactsCurrent(s: State) {
    forall i :: i in s.settled ==> Behind(s.db, s.settled[i]) && s.settled[i].clock == s.db.clock
  }

  lemma SyncOneKeepsFacts(s: State, i: Id, w: Weather)
    requires FactsBehind(s)
    ensures FactsBehind(SyncOne(s, i, w).0)
    ensures FactsCurrent(s) ==> FactsCurrent(SyncOne(s, i, w).0)
  {
  }

  lemma {:induction false} SyncEachKeepsFacts(s: State, ids: seq<Id>, w: Weather)
    requires FactsBehind(s)
    ensures FactsBehind(SyncEach(s, ids, w))
    ensures FactsCurrent(s) ==> FactsCurrent(SyncEach(s, ids, w))
  {
    if ids != [] {
      SyncEachKeepsFacts(s, ids[..|ids| - 1], w);
      SyncOneKeepsFacts(SyncEach(s, ids[..|ids| - 1], w), ids[|ids| - 1], w);
    }
  }

  lemma {:induction false} SyncUntilFailureKeepsFacts(s: State, ids: seq<Id>, w: Weather)
    requires FactsBehind(s)
    ensures FactsBehind(SyncUntilFailure(s, ids, w).0)
    ensures FactsCurrent(s) ==> FactsCurrent(SyncUntilFailure(s, ids, w).0)
  {
    if ids != [] {
      SyncUntilFailureKeepsFacts(s, ids[..|ids| - 1], w);
      SyncOneKeepsFacts(SyncUntilFailure(s, ids[..|ids| - 1], w).0, ids[|ids| - 1], w);
    }
  }

  lemma WriteKeepsBehind(env: Env, db: Db, op: Op, f: Facts)
    requires Mutate(env, db, op).Ok? && !op.Login? && !op.DeleteUser?
    requires Behind(db, f)
    ensures Behind(Mutate(env, db, op).value, f)
    ensures !op.Tick? ==> Mutate(env, db, op).value.clock == db.clock
  {
  }

  lemma WrittenKeepsFacts(env: Env, s: State, op: Op)
    requires ForeignKeys(s.db) && Mutate(env, s.db, op).Ok? && !op.Login?
    requires FactsBehind(s)
    requires s.settled.Keys <= s.db.interfaces.Keys
    ensures FactsBehind(Written(s, Mutate(env, s.db, op).value, op))
    ensures FactsCurrent(s) && !op.Tick? ==> FactsCurrent(Written(s, Mutate(env, s.db, op).value, op))
  {
    var db' := Mutate(env, s.db, op).value;
    var s' := Written(s, db', op);
    if op.DeleteUser? {
      assert s'.settled.Keys == {};
    } else {
      forall i | i in s'.settled
        ensures Behind(db', s.settled[i]) && (!op.Tick? ==> db'.clock == s.db.clock)
      {
        WriteKeepsBehind(env, s.db, op, s.settled[i]);
      }
    }
  }

  lemma PerformKeepsFacts(s: State, plan: Plan, w: Weather)
    requires FactsBehind(s)
    ensures FactsBehind(Perform(s, plan, w).0)
    ensures FactsCurrent(s) ==> FactsCurrent(Perform(s, plan, w).0)
  {
    match plan
    case Nothing =>
    case One(i) => SyncOneKeepsFacts(s, i, w);
    case Each(ids) => SyncEachKeepsFacts(s, ids, w);
    case All => SyncUntilFailureKeepsFacts(s, s.db.order, w);
    case TearDown(_, _) =>
  }

  lemma StepKeepsFacts(env: Env, s: State, op: Op, w: Weather)
    requires Inv(s) && !op.Login?
    requires FactsBehind(s)
    ensures FactsBehind(Step(env, s, op, w).0)
    ensures FactsCurrent(s) && !op.Tick? ==> FactsCurrent(Step(env, s, op, w).0)
  {
    if Mutate(env, s.db, op).Ok? {
      assert forall i :: i in s.settled ==> SettledRight(s, i);
      WrittenKeepsFacts(env, s, op);
      PerformKeepsFacts(Written(s, Mutate(env, s.db, op).value, op), PlanOf(s.db, op), w);
    }
  }

  ghost predicate NoLogins(events: seq<Event>) {
    forall k :: 0 <= k < |events| ==> !events[k].op.Login?
  }

  ghost predicate NoTime(events: seq<Event>) {
    forall k :: 0 <= k < |events| ==> !events[k].op.Tick?
  }

  lemma {:induction false} RunKeepsFacts(env: Env, events: seq<Event>)
    requires FreshRun(env, INITIAL, events) && NoLogins(events)
    ensures FactsBehind(Run(env, INITIAL, events))
    ensures NoTime(events) ==> FactsCurrent(Run(env, INITIAL, events))
  {
    if events != [] {
      var init, last := events[..|events| - 1], events[|events| - 1];
      FreshRunPrefix(env, INITIAL, events);
      RunKeepsFacts(env, init);
      PushedIsPermittedAsOfLastSync(env, init);
      StepKeepsFacts(env, Run(env, INITIAL, init), last.op, last.weather);
    }
  }

  lemma CurrentFactsArePresent(db: Db, f: Facts)
    requires Behind(db, f) && f.clock == db.clock
    ensures AsOf(db, f) == db
  {
    assert AsOf(db, f).users == db.users;
  }

  /**
   In runs with answering backends and without logins or time steps, every interface's
   backend holds exactly its currently active devices.
   */
  lemma PushedEqualsPermitted(env: Env, events: seq<Event>, i: Id)
    requires FreshRun(env, INITIAL, events) && CalmRun(events) && NoLogins(events) && NoTime(events)
    requires i in Run(env, INITIAL, events).db.interfaces
    ensures var s := Run(env, INITIAL, events);
            Converged(s, i)
  {
    CalmRunsSettle(env, events);
    RunKeepsFacts(env, events);
    var s := Run(env, INITIAL, events);
    assert SettledRight(s, i);
    CurrentFactsArePresent(s.db, s.settled[i]);
  }

  lemma {:induction false} FewerWires(a: seq<Peer>, fewer: Peer -> bool, more: Peer -> bool)
    requires forall k :: 0 <= k < |a| && fewer(a[k]) ==> more(a[k])
    ensures forall x :: x in Wires(Filter(a, fewer)) ==> x in Wires(Filter(a, more))
  {
    FilterMembers(a, fewer);
    forall x | x in Wires(Filter(a, fewer)) ensures x in Wires(Filter(a, more)) {
      var n :| 0 <= n < |Filter(a, fewer)| && Wire(Filter(a, fewer)[n]) == x;
      var p := Filter(a, fewer)[n];
      InFilter(a, fewer, p);
      InFilter(a, more, p);
      var m :| 0 <= m < |Filter(a, more)| && Filter(a, more)[m] == p;
      assert Wires(Filter(a, more))[m] == x;
    }
  }

  lemma EarlierDroppedNobody(db: Db, f: Facts, i: Id)
    requires i in db.interfaces && Behind(db, f) && OwnersKnown(db, i, f)
    ensures forall x :: x in DesiredFor(db, i).peers ==> x in DesiredFor(AsOf(db, f), i).peers
  {
    var d := AsOf(db, f);
    forall k | 0 <= k < |db.peers| && ActiveOn(db, i)(db.peers[k]) ensures ActiveOn(d, i)(db.peers[k]) {
    }
    FewerWires(db.peers, ActiveOn(db, i), ActiveOn(d, i));
  }

  lemma {:induction false} StrictlyFewer(a: seq<Peer>, fewer: Peer -> bool, more: Peer -> bool)
    requires forall k :: 0 <= k < |a| && fewer(a[k]) ==> more(a[k])
    ensures |Filter(a, fewer)| <= |Filter(a, more)|
    ensures (exists k :: 0 <= k < |a| && more(a[k]) && !fewer(a[k])) ==> |Filter(a, fewer)| < |Filter(a, more)|
  {
    if a != [] {
      StrictlyFewer(a[..|a| - 1], fewer, more);
    }
  }

  /** A device that was active as of the facts `f` and is not now has an owner whose login has expired since. */
  ghost predicate Expired(db: Db, f: Facts, i: Id, p: Peer)
    requires i in db.interfaces
  {
    ActiveOn(AsOf(db, f), i)(p) && p.userId.Some? && !UserIsLive(db, p.userId.value)
  }

  /**
   Time without logins changes what an interface should hold exactly when it expires the owner of an
   active device.
   */
  lemma ExpiryMatters(db: Db, f: Facts, i: Id)
    requires i in db.interfaces && Behind(db, f) && OwnersKnown(db, i, f)
    ensures DesiredFor(db, i) != DesiredFor(AsOf(db, f), i)
       <==> exists k :: 0 <= k < |db.peers| && Expired(db, f, i, db.peers[k])
  {
    var today, before := ActiveOn(db, i), ActiveOn(AsOf(db, f), i);
    forall k | 0 <= k < |db.peers|
        ensures today(db.peers[k]) <==> before(db.peers[k]) && !Expired(db, f, i, db.peers[k]) {
    }
    if k :| 0 <= k < |db.peers| && Expired(db, f, i, db.peers[k]) {
      StrictlyFewer(db.peers, today, before);
    } else {
      FilterAgree(db.peers, today, before);
    }
  }

  /**
   Time alone can only leave too much on a backend, never too little: without logins, a
   device permitted now is on the backend, whatever has expired since the last sync.
   */
  lemma ExpiryNeverDropsPermitted(env: Env, events: seq<Event>, i: Id)
    requires FreshRun(env, INITIAL, events) && CalmRun(events) && NoLogins(events)
    requires i in Run(env, INITIAL, events).db.interfaces
    ensures var s := Run(env, INITIAL, events);
            var held := At(s.pushed, TargetOf(s.db.interfaces[i]));
            && held.Some? && held.value.spec == SpecOf(s.db.interfaces[i])
            && forall x :: x in DesiredFor(s.db, i).peers ==> x in held.value.peers
  {
    CalmRunsSettle(env, events);
    RunKeepsFacts(env, events);
    var s := Run(env, INITIAL, events);
    assert SettledRight(s, i);
    EarlierDroppedNobody(s.db, s.settled[i], i);
  }

  // ---- Logins and time ----

  /** Two rows of the same interface with keys have different wire forms. */
  lemma WiresApart(rows: seq<Peer>, j: nat, k: nat)
    requires PeersUnique(rows) && j < |rows| && k < |rows| && j != k
    requires rows[j].interfaceId == rows[k].interfaceId && rows[j].publicKey != ""
    ensures Wire(rows[j]) != Wire(rows[k])
  {
    assert PeersApart(rows[if j < k then j else k], rows[if j < k then k else j]);
  }

  lemma KeptWireIsThere(rows: seq<Peer>, keep: Peer -> bool, k: nat)
    requires k < |rows| && keep(rows[k])
    ensures Wire(rows[k]) in Wires(Filter(rows, keep))
  {
    InFilter(rows, keep, rows[k]);
    var m :| 0 <= m < |Filter(rows, keep)| && Filter(rows, keep)[m] == rows[k];
    assert Wires(Filter(rows, keep))[m] == Wire(rows[k]);
  }

  lemma DroppedWireIsGone(rows: seq<Peer>, keep: Peer -> bool, i: Id, k: nat)
    requires PeersUnique(rows) && k < |rows| && rows[k].interfaceId == i && rows[k].publicKey != "" && !keep(rows[k])
    requires forall j :: 0 <= j < |rows| && keep(rows[j]) ==> rows[j].interfaceId == i && rows[j].publicKey != ""
    ensures Wire(rows[k]) !in Wires(Filter(rows, keep))
  {
    FilterMembers(rows, keep);
    if Wire(rows[k]) in Wires(Filter(rows, keep)) {
      var m :| 0 <= m < |Filter(rows, keep)| && Wire(Filter(rows, keep)[m]) == Wire(rows[k]);
      InFilter(rows, keep, Filter(rows, keep)[m]);
      var j :| 0 <= j < |rows| && rows[j] == Filter(rows, keep)[m];
      WiresApart(rows, k, j);
      assert false;
    }
  }

  /** Two databases with the same device rows want the same of an interface exactly when they judge every row alike. */
  lemma DesiredDiffersIff(d: Db, d': Db, i: Id)
    requires i in d.interfaces && i in d'.interfaces && d.peers == d'.peers && PeersUnique(d.peers)
    requires SpecOf(d.interfaces[i]) == SpecOf(d'.interfaces[i])
    ensures DesiredFor(d, i) != DesiredFor(d', i)
       <==> exists k :: 0 <= k < |d.peers| && ActiveOn(d, i)(d.peers[k]) != ActiveOn(d', i)(d.peers[k])
  {
    if k :| 0 <= k < |d.peers| && ActiveOn(d, i)(d.peers[k]) != ActiveOn(d', i)(d.peers[k]) {
      if ActiveOn(d, i)(d.peers[k]) {
        KeptWireIsThere(d.peers, ActiveOn(d, i), k);
        DroppedWireIsGone(d.peers, ActiveOn(d', i), i, k);
      } else {
        KeptWireIsThere(d.peers, ActiveOn(d', i), k);
        DroppedWireIsGone(d.peers, ActiveOn(d, i), i, k);
      }
    } else {
      FilterAgree(d.peers, ActiveOn(d, i), ActiveOn(d', i));
    }
  }

  /** The owner's captured groups and email pass the access rule of the interface. */
  predicate OwnerAdmitted(db: Db, i: Id, u: Id)
    requires i in db.interfaces && u in db.users
  {
    AccessGranted(db.groups, db.interfaces[i].groupIds, db.users[u].email, ClaimGroups(db.claims, u))
  }

  /**
   Since the facts `f` were seen, the owner of a configured device in good standing has
   expired (though admitted before), come back from being expired (and is admitted now),
   or, live throughout, has gained or lost admission through captured groups.
   */
  ghost predicate LoginsMoved(db: Db, f: Facts, i: Id, p: Peer)
    requires i in db.interfaces
  {
    && p.interfaceId == i && p.publicKey != "" && p.userId.Some? && p.userId.value in db.users
    && var u, before := p.userId.value, AsOf(db, f);
       && !db.users[u].banned && !db.users[u].revoked
       && (|| (UserIsLive(before, u) && !UserIsLive(db, u) && OwnerAdmitted(before, i, u))
           || (!UserIsLive(before, u) && UserIsLive(db, u) && OwnerAdmitted(db, i, u))
           || (UserIsLive(before, u) && UserIsLive(db, u) && OwnerAdmitted(before, i, u) != OwnerAdmitted(db, i, u)))
  }

  lemma LoginsMovedIff(db: Db, f: Facts, i: Id, p: Peer)
    requires i in db.interfaces
    ensures LoginsMoved(db, f, i, p) <==> ActiveOn(db, i)(p) != ActiveOn(AsOf(db, f), i)(p)
  {
  }

  /**
   The documentation lets devices of an expired user drop until they log in again.  A
   deadline that passes syncs nothing, and neither does the login that revives the user.
   In every state of every run an interface whose latest planned sync went through holds
   something else than what is permitted now exactly when, for some device, the login
   facts have moved since that sync.
   */
  lemma BackendLagsLogins(env: Env, events: seq<Event>, i: Id)
    requires FreshRun(env, INITIAL, events) && i in Run(env, INITIAL, events).settled
    ensures var s := Run(env, INITIAL, events);
            && i in s.db.interfaces
            && (!Converged(s, i)
                <==> exists k :: 0 <= k < |s.db.peers| && LoginsMoved(s.db, s.settled[i], i, s.db.peers[k]))
  {
    PushedIsPermittedAsOfLastSync(env, events);
    var s := Run(env, INITIAL, events);
    assert SettledRight(s, i);
    var before := AsOf(s.db, s.settled[i]);
    DesiredDiffersIff(s.db, before, i);
    forall k | 0 <= k < |s.db.peers|
      ensures LoginsMoved(s.db, s.settled[i], i, s.db.peers[k])
         <==> ActiveOn(s.db, i)(s.db.peers[k]) != ActiveOn(before, i)(s.db.peers[k])
    {
      LoginsMovedIff(s.db, s.settled[i], i, s.db.peers[k]);
    }
  }

  /** So in calm runs without logins: exactly when the owner of a device active at the last sync has expired since. */
  lemma ExpiredStayUntilSync(env: Env, events: seq<Event>, i: Id)
    requires FreshRun(env, INITIAL, events) && CalmRun(events) && NoLogins(events)
    requires i in Run(env, INITIAL, events).db.interfaces
    ensures var s := Run(env, INITIAL, events);
            && i in s.settled
            && (!Converged(s, i)
                <==> exists k :: 0 <= k < |s.db.peers| && Expired(s.db, s.settled[i], i, s.db.peers[k]))
  {
    CalmRunsSettle(env, events);
    RunKeepsFacts(env, events);
    var s := Run(env, INITIAL, events);
    assert SettledRight(s, i);
    ExpiryMatters(s.db, s.settled[i], i);
  }
}
